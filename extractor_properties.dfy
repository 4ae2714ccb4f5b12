/**
 * What a run of `PdfExtractor.Extract` promises: the loop's effects are a
 * prefix of the reference effects (all of them unless cancelled), files are
 * numbered by the global image counter and never repeat, every image that
 * decodes and saves is written, a failure changes exactly one effect, and
 * progress is reported once per page in order.
 */
module ExtractorProperties {
  import opened Decimal
  import opened PdfImages
  import opened PdfExtractor

  // ---------------------------------------------------------------- the loop against the reference

  /** The first image has the first effect, and dropping it renumbers the reference effects of the rest from `n + 1`. */
  lemma EntriesEffectsTail(es: seq<Entry>, page: nat, n: nat)
    requires es != []
    ensures EntriesEffects(es[1..], page, n + 1) == EntriesEffects(es, page, n)[1..]
    ensures EntriesEffects(es, page, n)[0] == EntryEffect(es[0], page, n)
  {
    var a := EntriesEffects(es[1..], page, n + 1);
    var b := EntriesEffects(es, page, n)[1..];
    forall k | 0 <= k < |a| ensures a[k] == b[k] {
      assert es[1..][k] == es[k + 1];
    }
  }

  /**
   * What `RunEntriesShape` states of a run of the images `es` from `acc` that
   * ends in `r`, where `all` are the reference effects of `es`.
   */
  predicate EntriesShape(es: seq<Entry>, acc: Acc, r: Acc, all: seq<Effect>, cancel: set<(nat, Checkpoint)>)
    requires |all| == |es|
  {
    && r.pageCounter == acc.pageCounter
    && acc.imageCounter <= r.imageCounter <= acc.imageCounter + |es|
    && (!r.cancelled ==> r.imageCounter == acc.imageCounter + |es| && r.trace == acc.trace + all)
    && (r.cancelled ==>
          && acc.imageCounter < r.imageCounter
          && Fired(cancel, r.imageCounter - 1, es[r.imageCounter - 1 - acc.imageCounter])
          && r.trace == acc.trace + all[..r.imageCounter - 1 - acc.imageCounter])
  }

  /** The first image is cancelled: the run stops there, having done nothing for it. */
  lemma CancelledOnFirstImage(es: seq<Entry>, acc: Acc, cancel: set<(nat, Checkpoint)>)
    requires !acc.cancelled && es != []
    requires StepEntry(es[0], acc, cancel).cancelled
    ensures EntriesShape(es, acc, RunEntries(es, acc, cancel), EntriesEffects(es, acc.pageCounter, acc.imageCounter), cancel)
  {
    assert RunEntries(es, acc, cancel) == StepEntry(es[0], acc, cancel);
    assert EntriesEffects(es, acc.pageCounter, acc.imageCounter)[..0] == [];
  }

  lemma ConsAppend<T>(t: seq<T>, all: seq<T>)
    requires all != []
    ensures (t + [all[0]]) + all[1..] == t + all
  {
    assert [all[0]] + all[1..] == all;
  }

  lemma ConsPrefix<T>(t: seq<T>, all: seq<T>, m: nat)
    requires 1 <= m <= |all|
    ensures (t + [all[0]]) + all[1..][..m - 1] == t + all[..m]
  {
    assert [all[0]] + all[1..][..m - 1] == all[..m];
  }

  /** The first image completes: the run of the rest follows from the state after it. */
  lemma FirstImageCompletes(es: seq<Entry>, acc: Acc, s: Acc, r: Acc, all: seq<Effect>, cancel: set<(nat, Checkpoint)>)
    requires es != [] && |all| == |es|
    requires s == acc.(imageCounter := acc.imageCounter + 1, trace := acc.trace + [all[0]])
    requires EntriesShape(es[1..], s, r, all[1..], cancel)
    ensures EntriesShape(es, acc, r, all, cancel)
  {
    if r.cancelled {
      var m := r.imageCounter - 1 - acc.imageCounter;
      assert es[1..][m - 1] == es[m];
      ConsPrefix(acc.trace, all, m);
    } else {
      ConsAppend(acc.trace, all);
    }
  }

  lemma {:induction false} RunEntriesShape(es: seq<Entry>, acc: Acc, cancel: set<(nat, Checkpoint)>)
    requires !acc.cancelled
    ensures EntriesShape(es, acc, RunEntries(es, acc, cancel), EntriesEffects(es, acc.pageCounter, acc.imageCounter), cancel)
  {
    if es != [] {
      var s := StepEntry(es[0], acc, cancel);
      if s.cancelled {
        CancelledOnFirstImage(es, acc, cancel);
      } else {
        var all := EntriesEffects(es, acc.pageCounter, acc.imageCounter);
        EntriesEffectsTail(es, acc.pageCounter, acc.imageCounter);
        RunEntriesShape(es[1..], s, cancel);
        FirstImageCompletes(es, acc, s, RunEntries(es, acc, cancel), all, cancel);
      }
    }
  }

  /**
   * What `StepPageShape` states of one page with images `es` run from `acc`
   * to `s`, where `page` are its reference effects: a prefix of them, all of
   * them unless cancelled, and a cancelled run stopped at a poll that fired.
   */
  predicate PageShape(es: seq<Entry>, acc: Acc, s: Acc, page: seq<Effect>, cancel: set<(nat, Checkpoint)>) {
    && s.pageCounter == acc.pageCounter + 1
    && acc.imageCounter <= s.imageCounter <= acc.imageCounter + |es|
    && acc.trace <= s.trace && s.trace <= acc.trace + page
    && (!s.cancelled ==> s.trace == acc.trace + page && s.imageCounter == acc.imageCounter + |es|)
    && (s.cancelled ==>
          && acc.imageCounter < s.imageCounter
          && Fired(cancel, s.imageCounter - 1, es[s.imageCounter - 1 - acc.imageCounter]))
  }

  /** The page's progress report, then its images, then possibly the enumeration error. */
  lemma PageFromEntries(es: seq<Entry>, acc: Acc, started: Acc, after: Acc, s: Acc,
                        progress: Effect, e: seq<Effect>, tail: seq<Effect>, cancel: set<(nat, Checkpoint)>)
    requires |e| == |es|
    requires started == acc.(pageCounter := acc.pageCounter + 1, trace := acc.trace + [progress])
    requires EntriesShape(es, started, after, e, cancel)
    requires !after.cancelled ==> s == after.(trace := after.trace + tail)
    requires after.cancelled ==> s == after
    ensures PageShape(es, acc, s, [progress] + e + tail, cancel)
  {
    var page := [progress] + e + tail;
    if after.cancelled {
      var m := after.imageCounter - 1 - acc.imageCounter;
      assert s.trace == acc.trace + ([progress] + e[..m]);
      assert page == ([progress] + e[..m]) + (e[m..] + tail);
      PrefixExtend(acc.trace, acc.trace, [progress] + e[..m]);
      PrefixExtend(s.trace, s.trace, e[m..] + tail);
      assert s.trace + (e[m..] + tail) == acc.trace + page;
    } else {
      assert s.trace == acc.trace + page;
      PrefixExtend(acc.trace, acc.trace, page);
    }
  }

  /** One page: all of its reference effects unless one of its images is cancelled, a prefix if so. */
  lemma StepPageShape(p: Page, pageCount: nat, acc: Acc, cancel: set<(nat, Checkpoint)>)
    requires !acc.cancelled
    ensures PageShape(p.entries, acc, StepPage(p, pageCount, acc, cancel),
                      PageEffects(p, acc.pageCounter + 1, pageCount, acc.imageCounter), cancel)
  {
    var pageNo := acc.pageCounter + 1;
    var started := acc.(pageCounter := pageNo, trace := acc.trace + [Progress(pageNo, pageCount)]);
    RunEntriesShape(p.entries, started, cancel);
    var after := RunEntries(p.entries, started, cancel);
    var tail: seq<Effect> := if p.enumFails then [Error(CouldNotExtract(pageNo))] else [];
    if !p.enumFails {
      assert after.trace + tail == after.trace;
    }
    PageFromEntries(p.entries, acc, started, after, StepPage(p, pageCount, acc, cancel),
                    Progress(pageNo, pageCount), EntriesEffects(p.entries, pageNo, acc.imageCounter), tail, cancel);
  }

  lemma PrefixExtend<T>(a: seq<T>, b: seq<T>, c: seq<T>)
    requires a <= b
    ensures a <= b + c
  {
    assert (b + c)[..|a|] == b[..|a|];
  }

  lemma DocumentEffectsCons(ps: seq<Page>, pageCount: nat, before: nat, n: nat)
    requires ps != []
    ensures DocumentEffects(ps, pageCount, before, n)
         == PageEffects(ps[0], before + 1, pageCount, n) + DocumentEffects(ps[1..], pageCount, before + 1, n + |ps[0].entries|)
  {
  }

  lemma FlatCons(ps: seq<Page>)
    requires ps != []
    ensures Flat(ps) == ps[0].entries + Flat(ps[1..])
  {
  }

  /** Image `g` of pages `ps` is on the first page or is image `g - |ps[0].entries|` of the rest. */
  lemma FlatAt(ps: seq<Page>, g: nat)
    requires ps != []
    ensures |Flat(ps)| == |ps[0].entries| + |Flat(ps[1..])|
    ensures g < |ps[0].entries| ==> g < |Flat(ps)| && Flat(ps)[g] == ps[0].entries[g]
    ensures |ps[0].entries| <= g < |Flat(ps)| ==> Flat(ps)[g] == Flat(ps[1..])[g - |ps[0].entries|]
  {
    FlatCons(ps);
  }

  lemma PageEffectsAt(p: Page, pageNo: nat, pageCount: nat, n: nat, k: nat)
    requires k < |p.entries|
    ensures |PageEffects(p, pageNo, pageCount, n)| == 1 + |p.entries| + (if p.enumFails then 1 else 0)
    ensures PageEffects(p, pageNo, pageCount, n)[1 + k] == EntryEffect(p.entries[k], pageNo, n + k)
  {
  }

  /** A write among a page's effects is the effect of one of its images. */
  lemma PageWrite(p: Page, pageNo: nat, pageCount: nat, n: nat, j: nat)
    requires j < |PageEffects(p, pageNo, pageCount, n)| && PageEffects(p, pageNo, pageCount, n)[j].Write?
    ensures 1 <= j <= |p.entries|
    ensures PageEffects(p, pageNo, pageCount, n)[j] == EntryEffect(p.entries[j - 1], pageNo, n + j - 1)
  {
  }

  /** The effect of an image is a write only when it decodes and saves, and then it is numbered by its counter. */
  lemma EntryWrite(e: Entry, page: nat, n: nat)
    requires EntryEffect(e, page, n).Write?
    ensures EntryEffect(e, page, n).counter == n && Written(e, EntryEffect(e, page, n).image)
  {
  }

  /** Prefixes compose: a run that extends `a + p` within `a + p + rest`. */
  lemma PrefixCompose<T>(a: seq<T>, p: seq<T>, rest: seq<T>, t: seq<T>)
    requires a + p <= t && t <= (a + p) + rest
    ensures a <= t && t <= a + (p + rest)
  {
    assert (a + p)[..|a|] == a;
    assert (a + p) + rest == a + (p + rest);
  }

  /**
   * What `RunPagesShape` states of a run from `acc` to `r` over pages whose
   * reference effects are `all` and whose images are `flat`, `pages` of them.
   */
  predicate PagesShape(acc: Acc, r: Acc, all: seq<Effect>, flat: seq<Entry>, pages: nat, cancel: set<(nat, Checkpoint)>) {
    && acc.trace <= r.trace && r.trace <= acc.trace + all
    && acc.imageCounter <= r.imageCounter <= acc.imageCounter + |flat|
    && (!r.cancelled ==>
          r.trace == acc.trace + all && r.pageCounter == acc.pageCounter + pages
          && r.imageCounter == acc.imageCounter + |flat|)
    && (r.cancelled ==>
          && acc.imageCounter < r.imageCounter
          && Fired(cancel, r.imageCounter - 1, flat[r.imageCounter - 1 - acc.imageCounter]))
  }

  /** The first page is cancelled: the run ends there. */
  lemma CancelledOnFirstPage(es: seq<Entry>, acc: Acc, s: Acc, p: seq<Effect>, rest: seq<Effect>, flatRest: seq<Entry>,
                             pages: nat, cancel: set<(nat, Checkpoint)>)
    requires PageShape(es, acc, s, p, cancel) && s.cancelled
    ensures PagesShape(acc, s, p + rest, es + flatRest, pages + 1, cancel)
  {
    var m := s.imageCounter - 1 - acc.imageCounter;
    assert (es + flatRest)[m] == es[m];
    PrefixExtend(s.trace, acc.trace + p, rest);
    assert acc.trace + p + rest == acc.trace + (p + rest);
    PrefixExtend(acc.trace, acc.trace, p + rest);
  }

  /** The first page completes: the run of the rest follows from the state after it. */
  lemma FirstPageCompletes(es: seq<Entry>, acc: Acc, s: Acc, r: Acc, p: seq<Effect>, rest: seq<Effect>,
                           flatRest: seq<Entry>, pages: nat, cancel: set<(nat, Checkpoint)>)
    requires PageShape(es, acc, s, p, cancel) && !s.cancelled
    requires PagesShape(s, r, rest, flatRest, pages, cancel)
    ensures PagesShape(acc, r, p + rest, es + flatRest, pages + 1, cancel)
  {
    PrefixCompose(acc.trace, p, rest, r.trace);
    if r.cancelled {
      var m := r.imageCounter - 1 - s.imageCounter;
      assert (es + flatRest)[|es| + m] == flatRest[m];
    } else {
      assert acc.trace + p + rest == acc.trace + (p + rest);
    }
  }

  lemma {:induction false} RunPagesShape(ps: seq<Page>, pageCount: nat, acc: Acc, cancel: set<(nat, Checkpoint)>)
    requires !acc.cancelled
    ensures PagesShape(acc, RunPages(ps, pageCount, acc, cancel),
                       DocumentEffects(ps, pageCount, acc.pageCounter, acc.imageCounter), Flat(ps), |ps|, cancel)
  {
    if ps == [] {
      assert acc.trace + [] == acc.trace;
    } else {
      var s := StepPage(ps[0], pageCount, acc, cancel);
      var p := PageEffects(ps[0], acc.pageCounter + 1, pageCount, acc.imageCounter);
      var rest := DocumentEffects(ps[1..], pageCount, acc.pageCounter + 1, acc.imageCounter + |ps[0].entries|);
      StepPageShape(ps[0], pageCount, acc, cancel);
      DocumentEffectsCons(ps, pageCount, acc.pageCounter, acc.imageCounter);
      FlatCons(ps);
      if s.cancelled {
        assert RunPages(ps, pageCount, acc, cancel) == s;
        CancelledOnFirstPage(ps[0].entries, acc, s, p, rest, Flat(ps[1..]), |ps[1..]|, cancel);
      } else {
        RunPagesShape(ps[1..], pageCount, s, cancel);
        assert RunPages(ps, pageCount, acc, cancel) == RunPages(ps[1..], pageCount, s, cancel);
        FirstPageCompletes(ps[0].entries, acc, s, RunPages(ps[1..], pageCount, s, cancel), p, rest,
                           Flat(ps[1..]), |ps[1..]|, cancel);
      }
    }
  }

  /**
   * A run of the whole document does a prefix of what the reference says,
   * and all of it unless it was cancelled; a cancelled run stopped at an image
   * one of whose two polls answered yes.
   */
  lemma RunOutcome(doc: seq<Page>, cancel: set<(nat, Checkpoint)>)
    ensures var r := RunDocument(doc, cancel);
      && r.trace <= Expected(doc)
      && (!r.cancelled ==>
            r.trace == Expected(doc) && r.pageCounter == |doc| && r.imageCounter == 1 + |Flat(doc)|)
      && (r.cancelled ==>
            2 <= r.imageCounter <= |Flat(doc)| + 1 && Fired(cancel, r.imageCounter - 1, Flat(doc)[r.imageCounter - 2]))
  {
    RunPagesShape(doc, |doc|, Acc(0, 1, [], false), cancel);
  }

  /** A token that is never cancelled gives `true` and every reference effect. */
  lemma NeverCancelledSucceeds(doc: seq<Page>, cancel: set<(nat, Checkpoint)>)
    requires cancel == {}
    ensures !RunDocument(doc, cancel).cancelled
    ensures RunDocument(doc, cancel).trace == Expected(doc)
  {
    RunOutcome(doc, cancel);
  }

  // ---------------------------------------------------------------- cancellation, both ways

  /** A poll that fires at image `g` of a page stops its image loop there or earlier. */
  lemma {:induction false} RunEntriesStops(es: seq<Entry>, acc: Acc, cancel: set<(nat, Checkpoint)>, g: nat)
    requires !acc.cancelled && g < |es|
    ensures Fired(cancel, acc.imageCounter + g, es[g]) ==>
      RunEntries(es, acc, cancel).cancelled && RunEntries(es, acc, cancel).imageCounter <= acc.imageCounter + g + 1
  {
    var s := StepEntry(es[0], acc, cancel);
    assert RunEntries(es, acc, cancel) == RunEntries(es[1..], s, cancel);
    if s.cancelled {
      assert RunEntries(es[1..], s, cancel) == s;
    } else if g > 0 {
      assert es[1..][g - 1] == es[g];
      RunEntriesStops(es[1..], s, cancel, g - 1);
    }
  }

  /** A poll that fires at image `g` of a run of pages stops the run there or earlier. */
  lemma {:induction false} RunPagesStops(ps: seq<Page>, pageCount: nat, acc: Acc, cancel: set<(nat, Checkpoint)>, g: nat)
    requires !acc.cancelled && g < |Flat(ps)|
    ensures Fired(cancel, acc.imageCounter + g, Flat(ps)[g]) ==>
      && RunPages(ps, pageCount, acc, cancel).cancelled
      && RunPages(ps, pageCount, acc, cancel).imageCounter <= acc.imageCounter + g + 1
  {
    FlatAt(ps, g);
    var es := ps[0].entries;
    var s := StepPage(ps[0], pageCount, acc, cancel);
    StepPageShape(ps[0], pageCount, acc, cancel);
    assert RunPages(ps, pageCount, acc, cancel) == RunPages(ps[1..], pageCount, s, cancel);
    if s.cancelled {
      assert RunPages(ps[1..], pageCount, s, cancel) == s;
    }
    if g < |es| {
      var pageNo := acc.pageCounter + 1;
      var started := acc.(pageCounter := pageNo, trace := acc.trace + [Progress(pageNo, pageCount)]);
      RunEntriesStops(es, started, cancel, g);
    } else if !s.cancelled {
      RunPagesStops(ps[1..], pageCount, s, cancel, g - |es|);
    }
  }

  /**
   * A run is cancelled exactly when the poll of some image fires at a
   * checkpoint that image reaches (the second poll is reached only by an image
   * that decodes), and it stops at the first such image: no image before it
   * was cancelled.
   */
  lemma CancelledExactlyWhenFired(doc: seq<Page>, cancel: set<(nat, Checkpoint)>)
    ensures var r := RunDocument(doc, cancel);
      && (r.cancelled <==> exists g :: 0 <= g < |Flat(doc)| && Fired(cancel, g + 1, Flat(doc)[g]))
      && (r.cancelled ==>
            && 2 <= r.imageCounter <= |Flat(doc)| + 1
            && Fired(cancel, r.imageCounter - 1, Flat(doc)[r.imageCounter - 2])
            && forall g :: 0 <= g < r.imageCounter - 2 ==> !Fired(cancel, g + 1, Flat(doc)[g]))
  {
    var r := RunDocument(doc, cancel);
    RunOutcome(doc, cancel);
    forall g | 0 <= g < |Flat(doc)|
      ensures Fired(cancel, g + 1, Flat(doc)[g]) ==> r.cancelled && r.imageCounter <= g + 2
    {
      RunPagesStops(doc, |doc|, Acc(0, 1, [], false), cancel, g);
    }
    if r.cancelled {
      var g := r.imageCounter - 2;
      assert Fired(cancel, g + 1, Flat(doc)[g]);
    }
  }

  /** Every effect recorded so far stays in the trace of a page's image loop. */
  lemma {:induction false} RunPagesKeeps(ps: seq<Page>, pageCount: nat, acc: Acc, cancel: set<(nat, Checkpoint)>, w: Effect)
    requires w in acc.trace
    ensures w in RunPages(ps, pageCount, acc, cancel).trace
  {
    if ps != [] && !acc.cancelled {
      var s := StepPage(ps[0], pageCount, acc, cancel);
      StepPageShape(ps[0], pageCount, acc, cancel);
      var i :| 0 <= i < |acc.trace| && acc.trace[i] == w;
      assert s.trace[i] == w;
      RunPagesKeeps(ps[1..], pageCount, s, cancel, w);
    }
  }

  /** An image that decodes and saves, with no poll fired up to it, is written by a page's image loop. */
  lemma {:induction false} RunEntriesWritesBefore(es: seq<Entry>, acc: Acc, cancel: set<(nat, Checkpoint)>, g: nat)
    requires !acc.cancelled && g < |es| && es[g].Decoded? && !es[g].saveFails
    requires forall j :: 0 <= j <= g ==> !Fired(cancel, acc.imageCounter + j, es[j])
    ensures Write(acc.imageCounter + g, Processed(es[g].image)) in RunEntries(es, acc, cancel).trace
  {
    assert !Fired(cancel, acc.imageCounter + 0, es[0]);
    var s := StepEntry(es[0], acc, cancel);
    assert RunEntries(es, acc, cancel) == RunEntries(es[1..], s, cancel);
    RunEntriesShape(es[1..], s, cancel);
    if g > 0 {
      forall j | 0 <= j <= g - 1 ensures !Fired(cancel, s.imageCounter + j, es[1..][j]) {
        assert es[1..][j] == es[j + 1];
        assert !Fired(cancel, acc.imageCounter + (j + 1), es[j + 1]);
      }
      assert es[1..][g - 1] == es[g];
      RunEntriesWritesBefore(es[1..], s, cancel, g - 1);
    }
  }

  /** An image that decodes and saves, with no poll fired up to it, is written by a run of pages. */
  lemma {:induction false} RunPagesWritesBefore(ps: seq<Page>, pageCount: nat, acc: Acc, cancel: set<(nat, Checkpoint)>, g: nat)
    requires !acc.cancelled && g < |Flat(ps)| && Flat(ps)[g].Decoded? && !Flat(ps)[g].saveFails
    requires forall j :: 0 <= j <= g ==> !Fired(cancel, acc.imageCounter + j, Flat(ps)[j])
    ensures Write(acc.imageCounter + g, Processed(Flat(ps)[g].image)) in RunPages(ps, pageCount, acc, cancel).trace
    decreases |ps|, 1
  {
    FlatAt(ps, g);
    if g < |ps[0].entries| {
      FirstPageWrites(ps, pageCount, acc, cancel, g);
    } else {
      LaterPageWrites(ps, pageCount, acc, cancel, g);
    }
  }

  /** The image is on the first page: that page's image loop writes it, and later pages keep it. */
  lemma FirstPageWrites(ps: seq<Page>, pageCount: nat, acc: Acc, cancel: set<(nat, Checkpoint)>, g: nat)
    requires !acc.cancelled && ps != [] && g < |ps[0].entries| && g < |Flat(ps)| && Flat(ps)[g] == ps[0].entries[g]
    requires ps[0].entries[g].Decoded? && !ps[0].entries[g].saveFails
    requires forall j :: 0 <= j <= g ==> !Fired(cancel, acc.imageCounter + j, Flat(ps)[j])
    ensures Write(acc.imageCounter + g, Processed(Flat(ps)[g].image)) in RunPages(ps, pageCount, acc, cancel).trace
  {
    var es := ps[0].entries;
    var pageNo := acc.pageCounter + 1;
    var started := acc.(pageCounter := pageNo, trace := acc.trace + [Progress(pageNo, pageCount)]);
    forall j | 0 <= j <= g ensures !Fired(cancel, started.imageCounter + j, es[j]) {
      FlatAt(ps, j);
    }
    RunEntriesWritesBefore(es, started, cancel, g);
    var s := StepPage(ps[0], pageCount, acc, cancel);
    assert RunPages(ps, pageCount, acc, cancel) == RunPages(ps[1..], pageCount, s, cancel);
    RunPagesKeeps(ps[1..], pageCount, s, cancel, Write(acc.imageCounter + g, Processed(Flat(ps)[g].image)));
  }

  /** The image is on a later page: the first page completes, and the rest of the run writes it. */
  lemma {:induction false} LaterPageWrites(ps: seq<Page>, pageCount: nat, acc: Acc, cancel: set<(nat, Checkpoint)>, g: nat)
    requires !acc.cancelled && ps != [] && |ps[0].entries| <= g < |Flat(ps)|
    requires Flat(ps)[g].Decoded? && !Flat(ps)[g].saveFails
    requires forall j :: 0 <= j <= g ==> !Fired(cancel, acc.imageCounter + j, Flat(ps)[j])
    ensures Write(acc.imageCounter + g, Processed(Flat(ps)[g].image)) in RunPages(ps, pageCount, acc, cancel).trace
    decreases |ps|, 0
  {
    var es := ps[0].entries;
    var s := StepPage(ps[0], pageCount, acc, cancel);
    StepPageShape(ps[0], pageCount, acc, cancel);
    if acc.imageCounter < s.imageCounter {
      var m := s.imageCounter - 1 - acc.imageCounter;
      FlatAt(ps, m);
      assert !Fired(cancel, acc.imageCounter + m, Flat(ps)[m]);
    }
    assert !s.cancelled;
    forall j | 0 <= j <= g - |es| ensures !Fired(cancel, s.imageCounter + j, Flat(ps[1..])[j]) {
      FlatAt(ps, j + |es|);
      assert !Fired(cancel, acc.imageCounter + (j + |es|), Flat(ps)[j + |es|]);
    }
    FlatAt(ps, g);
    assert RunPages(ps, pageCount, acc, cancel) == RunPages(ps[1..], pageCount, s, cancel);
    RunPagesWritesBefore(ps[1..], pageCount, s, cancel, g - |es|);
  }

  /**
   * Cancellation loses nothing before the image at which the run stops: every
   * image before it that decodes and saves is written, under its own number.
   */
  lemma CancelledRunWritesBefore(doc: seq<Page>, cancel: set<(nat, Checkpoint)>, g: nat)
    requires g < |Flat(doc)| && Flat(doc)[g].Decoded? && !Flat(doc)[g].saveFails
    requires RunDocument(doc, cancel).cancelled ==> g + 2 < RunDocument(doc, cancel).imageCounter
    ensures Write(g + 1, Processed(Flat(doc)[g].image)) in RunDocument(doc, cancel).trace
  {
    forall j | 0 <= j <= g ensures !Fired(cancel, 1 + j, Flat(doc)[j]) {
      RunPagesStops(doc, |doc|, Acc(0, 1, [], false), cancel, j);
    }
    RunPagesWritesBefore(doc, |doc|, Acc(0, 1, [], false), cancel, g);
  }

  // ---------------------------------------------------------------- file numbering

  /** The `Write` effects of `t` all use numbers below `bound`. */
  predicate WritesBelow(t: seq<Effect>, bound: int) {
    forall k :: 0 <= k < |t| && t[k].Write? ==> t[k].counter < bound
  }

  /** The `Write` effects of `t` use strictly increasing numbers. */
  predicate WritesIncreasing(t: seq<Effect>) {
    forall i, j :: 0 <= i < j < |t| && t[i].Write? && t[j].Write? ==> t[i].counter < t[j].counter
  }

  /** The loop invariant: writes increase and stay below the number of the next (or the cancelled) image. */
  predicate Ordered(acc: Acc) {
    WritesIncreasing(acc.trace) && WritesBelow(acc.trace, if acc.cancelled then acc.imageCounter - 1 else acc.imageCounter)
  }

  lemma {:induction false} RunEntriesOrdered(es: seq<Entry>, acc: Acc, cancel: set<(nat, Checkpoint)>)
    requires Ordered(acc)
    ensures Ordered(RunEntries(es, acc, cancel))
    ensures RunEntries(es, acc, cancel).imageCounter >= acc.imageCounter
  {
    if es != [] && !acc.cancelled {
      var s := StepEntry(es[0], acc, cancel);
      assert Ordered(s);
      RunEntriesOrdered(es[1..], s, cancel);
    }
  }

  lemma {:induction false} RunPagesOrdered(ps: seq<Page>, pageCount: nat, acc: Acc, cancel: set<(nat, Checkpoint)>)
    requires Ordered(acc)
    ensures Ordered(RunPages(ps, pageCount, acc, cancel))
  {
    if ps != [] && !acc.cancelled {
      var pageNo := acc.pageCounter + 1;
      var started := acc.(pageCounter := pageNo, trace := acc.trace + [Progress(pageNo, pageCount)]);
      assert Ordered(started);
      RunEntriesOrdered(ps[0].entries, started, cancel);
      var s := StepPage(ps[0], pageCount, acc, cancel);
      assert Ordered(s);
      RunPagesOrdered(ps[1..], pageCount, s, cancel);
    }
  }

  /** Distinct numbers give distinct names `NNN.png`. */
  lemma FileNameInjective(m: nat, n: nat)
    requires FileName(m) == FileName(n)
    ensures m == n
  {
    var a, b := FileName(m), FileName(n);
    assert Pad3(m) == a[..|a| - 4];
    assert Pad3(n) == b[..|b| - 4];
    Pad3Injective(m, n);
  }

  /**
   * The files a run writes, cancelled or not, carry strictly increasing
   * numbers, so their names are pairwise distinct; a cancelled run writes no
   * file numbered from the cancelled image on.
   */
  lemma SavedNamesDistinct(doc: seq<Page>, cancel: set<(nat, Checkpoint)>)
    ensures var r := RunDocument(doc, cancel);
      && WritesIncreasing(r.trace)
      && (forall i, j :: 0 <= i < j < |r.trace| && r.trace[i].Write? && r.trace[j].Write? ==>
            FileName(r.trace[i].counter) != FileName(r.trace[j].counter))
      && (r.cancelled ==> WritesBelow(r.trace, r.imageCounter - 1))
  {
    var r := RunDocument(doc, cancel);
    RunPagesOrdered(doc, |doc|, Acc(0, 1, [], false), cancel);
    forall i, j | 0 <= i < j < |r.trace| && r.trace[i].Write? && r.trace[j].Write?
      ensures FileName(r.trace[i].counter) != FileName(r.trace[j].counter)
    {
      if FileName(r.trace[i].counter) == FileName(r.trace[j].counter) {
        FileNameInjective(r.trace[i].counter, r.trace[j].counter);
      }
    }
  }

  // ---------------------------------------------------------------- where every written file comes from

  /** `img` is what the loop saves for entry `e`: a decoded image whose save succeeds. */
  predicate Written(e: Entry, img: ImageData) {
    e.Decoded? && !e.saveFails && img == Processed(e.image)
  }

  /** `w` writes image `w.counter - n` of `flat`, as that image is saved. */
  predicate WriteOrigin(w: Effect, flat: seq<Entry>, n: nat) {
    w.Write? && n <= w.counter < n + |flat| && Written(flat[w.counter - n], w.image)
  }

  /** A write of a first page or of the pages after it, seen in the whole stretch. */
  lemma WriteOriginCompose(d: seq<Effect>, p: seq<Effect>, rest: seq<Effect>, flat: seq<Entry>,
                           es: seq<Entry>, flatRest: seq<Entry>, n: nat, j: nat)
    requires d == p + rest && flat == es + flatRest && j < |d|
    requires j < |p| ==> WriteOrigin(p[j], es, n)
    requires |p| <= j ==> WriteOrigin(rest[j - |p|], flatRest, n + |es|)
    ensures WriteOrigin(d[j], flat, n)
  {
    if j < |p| {
      assert d[j] == p[j];
      assert flat[d[j].counter - n] == es[d[j].counter - n];
    } else {
      assert d[j] == rest[j - |p|];
      assert flat[d[j].counter - n] == flatRest[d[j].counter - n - |es|];
    }
  }

  /** A write among a page's effects writes one of that page's images. */
  lemma PageWriteOrigin(pg: Page, pageNo: nat, pageCount: nat, n: nat, j: nat)
    requires j < |PageEffects(pg, pageNo, pageCount, n)| && PageEffects(pg, pageNo, pageCount, n)[j].Write?
    ensures WriteOrigin(PageEffects(pg, pageNo, pageCount, n)[j], pg.entries, n)
  {
    PageWrite(pg, pageNo, pageCount, n, j);
    EntryWrite(pg.entries[j - 1], pageNo, n + j - 1);
    assert pg.entries[j - 1] == pg.entries[n + j - 1 - n];
  }

  lemma {:induction false} DocumentWriteOrigin(ps: seq<Page>, pageCount: nat, before: nat, n: nat, j: nat)
    requires j < |DocumentEffects(ps, pageCount, before, n)| && DocumentEffects(ps, pageCount, before, n)[j].Write?
    ensures WriteOrigin(DocumentEffects(ps, pageCount, before, n)[j], Flat(ps), n)
  {
    DocumentEffectsCons(ps, pageCount, before, n);
    FlatCons(ps);
    var d := DocumentEffects(ps, pageCount, before, n);
    var p := PageEffects(ps[0], before + 1, pageCount, n);
    var rest := DocumentEffects(ps[1..], pageCount, before + 1, n + |ps[0].entries|);
    if j < |p| {
      assert d[j] == p[j];
      PageWriteOrigin(ps[0], before + 1, pageCount, n, j);
    } else {
      assert d[j] == rest[j - |p|];
      DocumentWriteOrigin(ps[1..], pageCount, before + 1, n + |ps[0].entries|, j - |p|);
    }
    WriteOriginCompose(d, p, rest, Flat(ps), ps[0].entries, Flat(ps[1..]), n, j);
  }

  lemma {:induction false} DocumentWritesGoodImage(ps: seq<Page>, pageCount: nat, before: nat, n: nat, g: nat)
      returns (j: nat)
    requires g < |Flat(ps)| && Flat(ps)[g].Decoded? && !Flat(ps)[g].saveFails
    ensures j < |DocumentEffects(ps, pageCount, before, n)|
    ensures DocumentEffects(ps, pageCount, before, n)[j] == Write(n + g, Processed(Flat(ps)[g].image))
  {
    DocumentEffectsCons(ps, pageCount, before, n);
    FlatAt(ps, g);
    var es := ps[0].entries;
    if g < |es| {
      PageEffectsAt(ps[0], before + 1, pageCount, n, g);
      j := 1 + g;
    } else {
      var j' := DocumentWritesGoodImage(ps[1..], pageCount, before + 1, n + |es|, g - |es|);
      j := |PageEffects(ps[0], before + 1, pageCount, n)| + j';
    }
  }

  /**
   * Every file a run writes is the k-th image of the document in enumeration
   * order (counting null and failing images), saved as `FileName(k)`, and that
   * image decoded and saved; an image that is not 1-bpp is saved exactly as
   * decoded, a 1-bpp one with at most its two palette entries exchanged.
   */
  lemma SavedFileOrigin(doc: seq<Page>, cancel: set<(nat, Checkpoint)>, j: nat)
    requires j < |RunDocument(doc, cancel).trace| && RunDocument(doc, cancel).trace[j].Write?
    ensures var w := RunDocument(doc, cancel).trace[j];
      1 <= w.counter <= |Flat(doc)| && Written(Flat(doc)[w.counter - 1], w.image)
    ensures var w := RunDocument(doc, cancel).trace[j];
      var source := Flat(doc)[w.counter - 1].image;
      && (source.format != Format1bppIndexed ==> w.image == source)
      && w.image.format == source.format && w.image.rows == source.rows
      && (w.image.palette == source.palette || w.image.palette == Swapped(source.palette))
  {
    RunOutcome(doc, cancel);
    var t := RunDocument(doc, cancel).trace;
    assert t[j] == Expected(doc)[j];
    DocumentWriteOrigin(doc, |doc|, 0, 1, j);
  }

  /** Without cancellation, the g-th image overall that decodes and saves is written as number g+1. */
  lemma GoodImagesSaved(doc: seq<Page>, cancel: set<(nat, Checkpoint)>, g: nat)
    requires !RunDocument(doc, cancel).cancelled
    requires g < |Flat(doc)| && Flat(doc)[g].Decoded? && !Flat(doc)[g].saveFails
    ensures Write(g + 1, Processed(Flat(doc)[g].image)) in RunDocument(doc, cancel).trace
  {
    RunOutcome(doc, cancel);
    var j := DocumentWritesGoodImage(doc, |doc|, 0, 1, g);
  }

  // ---------------------------------------------------------------- failure isolation

  /** The document with image `k` of page `i` replaced by `e`. */
  function Replace(ps: seq<Page>, i: nat, k: nat, e: Entry): seq<Page>
    requires i < |ps| && k < |ps[i].entries|
  {
    ps[i := ps[i].(entries := ps[i].entries[k := e])]
  }

  /** `b` is `a` with position `q` changed to `x`. */
  predicate DiffersOnlyAt(a: seq<Effect>, b: seq<Effect>, q: nat, x: Effect) {
    |a| == |b| && q < |a| && b[q] == x && forall j :: 0 <= j < |a| && j != q ==> a[j] == b[j]
  }

  lemma DiffersPrefixed(a: seq<Effect>, b: seq<Effect>, q: nat, x: Effect, p: seq<Effect>)
    requires DiffersOnlyAt(a, b, q, x)
    ensures DiffersOnlyAt(p + a, p + b, |p| + q, x)
  {
    forall j | 0 <= j < |p + a| && j != |p| + q ensures (p + a)[j] == (p + b)[j] {
      if j >= |p| {
        assert (p + a)[j] == a[j - |p|] && (p + b)[j] == b[j - |p|];
      }
    }
  }

  lemma DiffersSuffixed(a: seq<Effect>, b: seq<Effect>, q: nat, x: Effect, r: seq<Effect>)
    requires DiffersOnlyAt(a, b, q, x)
    ensures DiffersOnlyAt(a + r, b + r, q, x)
  {
    forall j | 0 <= j < |a + r| && j != q ensures (a + r)[j] == (b + r)[j] {
      if j >= |a| {
        assert (a + r)[j] == r[j - |a|] && (b + r)[j] == r[j - |b|];
      }
    }
  }

  /** Replacing image `k` of a page changes its effect, at place `1 + k` of the page's effects, and nothing else. */
  lemma ReplaceInPage(pg: Page, pageNo: nat, pageCount: nat, n: nat, k: nat, e: Entry)
    requires k < |pg.entries|
    ensures DiffersOnlyAt(PageEffects(pg, pageNo, pageCount, n),
                          PageEffects(pg.(entries := pg.entries[k := e]), pageNo, pageCount, n),
                          1 + k, EntryEffect(e, pageNo, n + k))
  {
    var es2 := pg.entries[k := e];
    var e1, e2 := EntriesEffects(pg.entries, pageNo, n), EntriesEffects(es2, pageNo, n);
    assert DiffersOnlyAt(e1, e2, k, EntryEffect(e, pageNo, n + k));
    var head := [Progress(pageNo, pageCount)];
    var tail: seq<Effect> := if pg.enumFails then [Error(CouldNotExtract(pageNo))] else [];
    DiffersPrefixed(e1, e2, k, EntryEffect(e, pageNo, n + k), head);
    DiffersSuffixed(head + e1, head + e2, 1 + k, EntryEffect(e, pageNo, n + k), tail);
  }

  lemma ReplaceOnFirstPage(ps: seq<Page>, pageCount: nat, before: nat, n: nat, k: nat, e: Entry)
    requires 0 < |ps| && k < |ps[0].entries|
    ensures DiffersOnlyAt(DocumentEffects(ps, pageCount, before, n),
                          DocumentEffects(Replace(ps, 0, k, e), pageCount, before, n),
                          1 + k, EntryEffect(e, before + 1, n + k))
  {
    var ps2 := Replace(ps, 0, k, e);
    assert ps2[0] == ps[0].(entries := ps[0].entries[k := e]);
    assert ps2[1..] == ps[1..];
    DocumentEffectsCons(ps, pageCount, before, n);
    DocumentEffectsCons(ps2, pageCount, before, n);
    ReplaceInPage(ps[0], before + 1, pageCount, n, k, e);
    DiffersSuffixed(PageEffects(ps[0], before + 1, pageCount, n), PageEffects(ps2[0], before + 1, pageCount, n),
                    1 + k, EntryEffect(e, before + 1, n + k),
                    DocumentEffects(ps[1..], pageCount, before + 1, n + |ps[0].entries|));
  }

  lemma ReplaceOnLaterPage(ps: seq<Page>, pageCount: nat, before: nat, n: nat, i: nat, k: nat, e: Entry, q: nat)
    requires 0 < i < |ps| && k < |ps[i].entries|
    requires DiffersOnlyAt(DocumentEffects(ps[1..], pageCount, before + 1, n + |ps[0].entries|),
                           DocumentEffects(Replace(ps[1..], i - 1, k, e), pageCount, before + 1, n + |ps[0].entries|),
                           q, EntryEffect(e, before + 1 + i, n + |ps[0].entries| + |Flat(ps[1..][..i - 1])| + k))
    ensures DiffersOnlyAt(DocumentEffects(ps, pageCount, before, n),
                          DocumentEffects(Replace(ps, i, k, e), pageCount, before, n),
                          |PageEffects(ps[0], before + 1, pageCount, n)| + q,
                          EntryEffect(e, before + i + 1, n + |Flat(ps[..i])| + k))
  {
    var ps2 := Replace(ps, i, k, e);
    assert ps2[0] == ps[0];
    assert ps2[1..] == Replace(ps[1..], i - 1, k, e);
    DocumentEffectsCons(ps, pageCount, before, n);
    DocumentEffectsCons(ps2, pageCount, before, n);
    assert ps[1..][..i - 1] == ps[..i][1..];
    FlatCons(ps[..i]);
    DiffersPrefixed(DocumentEffects(ps[1..], pageCount, before + 1, n + |ps[0].entries|),
                    DocumentEffects(ps2[1..], pageCount, before + 1, n + |ps[0].entries|),
                    q, EntryEffect(e, before + i + 1, n + |Flat(ps[..i])| + k),
                    PageEffects(ps[0], before + 1, pageCount, n));
  }

  lemma {:induction false} ReplaceOneEffect(ps: seq<Page>, pageCount: nat, before: nat, n: nat, i: nat, k: nat, e: Entry)
      returns (q: nat)
    requires i < |ps| && k < |ps[i].entries|
    ensures DiffersOnlyAt(DocumentEffects(ps, pageCount, before, n),
                          DocumentEffects(Replace(ps, i, k, e), pageCount, before, n),
                          q, EntryEffect(e, before + i + 1, n + |Flat(ps[..i])| + k))
  {
    if i == 0 {
      assert ps[..0] == [];
      ReplaceOnFirstPage(ps, pageCount, before, n, k, e);
      q := 1 + k;
    } else {
      var q' := ReplaceOneEffect(ps[1..], pageCount, before + 1, n + |ps[0].entries|, i - 1, k, e);
      ReplaceOnLaterPage(ps, pageCount, before, n, i, k, e, q');
      q := |PageEffects(ps[0], before + 1, pageCount, n)| + q';
    }
  }

  /**
   * Error isolation: putting a null, a failing or any other image in place of
   * one image changes exactly one effect of an uncancelled run, the one at that
   * image's place, which becomes that image's own effect; every other image,
   * on that page and on all later pages, keeps its effect and its number.
   */
  lemma FailureIsolation(doc: seq<Page>, i: nat, k: nat, e: Entry) returns (q: nat)
    requires i < |doc| && k < |doc[i].entries|
    ensures DiffersOnlyAt(Expected(doc), Expected(Replace(doc, i, k, e)), q,
                          EntryEffect(e, i + 1, 1 + |Flat(doc[..i])| + k))
  {
    q := ReplaceOneEffect(doc, |doc|, 0, 1, i, k, e);
  }

  // ---------------------------------------------------------------- progress

  /** The progress reports of a sequence of effects. */
  function Progresses(t: seq<Effect>): (r: seq<Effect>)
    ensures |r| <= |t|
  {
    if t == [] then [] else (if t[0].Progress? then [t[0]] else []) + Progresses(t[1..])
  }

  /** The progress reports of `t` are exactly its `Progress` effects: each of them, and nothing else. */
  lemma {:induction false} ProgressesMembers(t: seq<Effect>)
    ensures forall k :: 0 <= k < |Progresses(t)| ==> Progresses(t)[k].Progress? && Progresses(t)[k] in t
    ensures forall k :: 0 <= k < |t| && t[k].Progress? ==> t[k] in Progresses(t)
  {
    if t != [] {
      ProgressesMembers(t[1..]);
      var h: seq<Effect> := if t[0].Progress? then [t[0]] else [];
      assert Progresses(t) == h + Progresses(t[1..]);
      forall k | 0 <= k < |t| && t[k].Progress? ensures t[k] in Progresses(t) {
        if k > 0 {
          assert t[k] == t[1..][k - 1];
        }
      }
      forall k | 0 <= k < |Progresses(t)| ensures Progresses(t)[k].Progress? && Progresses(t)[k] in t {
        if k >= |h| {
          assert Progresses(t)[k] == Progresses(t[1..])[k - |h|];
        }
      }
    }
  }

  lemma {:induction false} ProgressesAppend(a: seq<Effect>, b: seq<Effect>)
    ensures Progresses(a + b) == Progresses(a) + Progresses(b)
  {
    if a == [] {
      assert a + b == b;
    } else {
      var h: seq<Effect> := if a[0].Progress? then [a[0]] else [];
      assert (a + b)[0] == a[0];
      assert (a + b)[1..] == a[1..] + b;
      assert Progresses(a + b) == h + Progresses(a[1..] + b);
      ProgressesAppend(a[1..], b);
      assert Progresses(a) == h + Progresses(a[1..]);
    }
  }

  lemma {:induction false} NoProgressInEntries(es: seq<Entry>, page: nat, n: nat)
    ensures Progresses(EntriesEffects(es, page, n)) == []
  {
    if es != [] {
      EntriesEffectsTail(es, page, n);
      NoProgressInEntries(es[1..], page, n + 1);
    }
  }

  lemma PageProgress(p: Page, pageNo: nat, pageCount: nat, n: nat)
    ensures Progresses(PageEffects(p, pageNo, pageCount, n)) == [Progress(pageNo, pageCount)]
  {
    var head := [Progress(pageNo, pageCount)];
    var e := EntriesEffects(p.entries, pageNo, n);
    var tail: seq<Effect> := if p.enumFails then [Error(CouldNotExtract(pageNo))] else [];
    assert PageEffects(p, pageNo, pageCount, n) == head + (e + tail);
    ProgressesAppend(head, e + tail);
    ProgressesAppend(e, tail);
    NoProgressInEntries(p.entries, pageNo, n);
    assert head[1..] == [];
    if tail != [] {
      assert tail[1..] == [];
    }
  }

  /** The reports (before + 1, N), (before + 2, N), ... for `count` pages. */
  function Reports(before: nat, count: nat, pageCount: nat): (r: seq<Effect>)
    decreases count
    ensures |r| == count
    ensures forall i :: 0 <= i < count ==> r[i] == Progress(before + i + 1, pageCount)
  {
    if count == 0 then [] else [Progress(before + 1, pageCount)] + Reports(before + 1, count - 1, pageCount)
  }

  lemma {:induction false} DocumentProgress(ps: seq<Page>, pageCount: nat, before: nat, n: nat)
    ensures Progresses(DocumentEffects(ps, pageCount, before, n)) == Reports(before, |ps|, pageCount)
  {
    if ps != [] {
      var es := ps[0].entries;
      DocumentEffectsCons(ps, pageCount, before, n);
      ProgressesAppend(PageEffects(ps[0], before + 1, pageCount, n), DocumentEffects(ps[1..], pageCount, before + 1, n + |es|));
      PageProgress(ps[0], before + 1, pageCount, n);
      DocumentProgress(ps[1..], pageCount, before + 1, n + |es|);
    }
  }

  lemma ProgressesPrefix(a: seq<Effect>, b: seq<Effect>)
    requires a <= b
    ensures Progresses(a) <= Progresses(b)
  {
    var c := b[|a|..];
    assert b == a + c;
    ProgressesAppend(a, c);
    PrefixExtend(Progresses(a), Progresses(a), Progresses(c));
  }

  /**
   * Progress is reported as (1, N), (2, N), ... in page order, where N is the
   * page count: all N reports in a run that is not cancelled, the first ones
   * in a cancelled run.
   */
  lemma ProgressReports(doc: seq<Page>, cancel: set<(nat, Checkpoint)>)
    ensures var r := RunDocument(doc, cancel);
      && Progresses(r.trace) <= Reports(0, |doc|, |doc|)
      && (!r.cancelled ==> Progresses(r.trace) == Reports(0, |doc|, |doc|))
  {
    RunOutcome(doc, cancel);
    DocumentProgress(doc, |doc|, 0, 1);
    ProgressesPrefix(RunDocument(doc, cancel).trace, Expected(doc));
  }

  // ---------------------------------------------------------------- messages

  /** Different error records have different messages: the kind and the page number can be read back. */
  lemma MessageInjective(a: ExtractError, b: ExtractError)
    requires Message(a) == Message(b)
    ensures a == b
  {
    var decode := "Cannot decode image on page ";
    var process := "Couldn't process image on page ";
    var extract := "Couldn't extract image on page ";
    var ma, mb := Message(a), Message(b);
    assert ma[1] == mb[1] && ma[9] == mb[9];
    match a
    case CannotDecode(p) =>
      assert b.CannotDecode?;
      assert NatToString(p) == ma[|decode|..] && NatToString(b.page) == mb[|decode|..];
      NatToStringInjective(p, b.page);
    case CouldNotProcess(p) =>
      assert b.CouldNotProcess?;
      assert NatToString(p) == ma[|process|..] && NatToString(b.page) == mb[|process|..];
      NatToStringInjective(p, b.page);
    case CouldNotExtract(p) =>
      assert b.CouldNotExtract?;
      assert NatToString(p) == ma[|extract|..] && NatToString(b.page) == mb[|extract|..];
      NatToStringInjective(p, b.page);
  }
}
