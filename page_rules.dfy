/**
 * The page-grouping rules of the main window as functions over the folder's
 * file names: the LINQ queries that step forward and back, the pages a save
 * moves, the names they get, and which buttons are enabled.
 */
module PageRules {
  import opened Wrappers
  import opened Decimal

  // ---------------------------------------------------------------- the order of the listing

  /** Ordinal comparison of two names: `a` sorts strictly before `b`. */
  predicate Before(a: string, b: string) {
    if a == [] then b != []
    else if b == [] then false
    else if a[0] != b[0] then a[0] < b[0]
    else Before(a[1..], b[1..])
  }

  lemma {:induction false} BeforeIrreflexive(a: string)
    ensures !Before(a, a)
  {
    if a != [] {
      BeforeIrreflexive(a[1..]);
    }
  }

  lemma {:induction false} BeforeAsymmetric(a: string, b: string)
    requires Before(a, b)
    ensures !Before(b, a)
  {
    if a != [] && b != [] && a[0] == b[0] {
      BeforeAsymmetric(a[1..], b[1..]);
    }
  }

  /** The folder's names in ascending order without repeats, as `OrderBy(f => f)` lists them. */
  predicate Sorted(files: seq<string>) {
    forall i, j :: 0 <= i < j < |files| ==> Before(files[i], files[j])
  }

  lemma SortedDistinct(files: seq<string>, i: nat, j: nat)
    requires Sorted(files) && i < |files| && j < |files| && files[i] == files[j]
    ensures i == j
  {
    if i < j {
      BeforeIrreflexive(files[i]);
    } else if j < i {
      BeforeIrreflexive(files[j]);
    }
  }

  // ---------------------------------------------------------------- the LINQ queries

  lemma SortedSuffix(files: seq<string>, k: nat)
    requires Sorted(files) && k <= |files|
    ensures Sorted(files[k..])
  {
    forall i, j | 0 <= i < j < |files| - k ensures Before(files[k..][i], files[k..][j]) {
      assert files[k..][i] == files[k + i] && files[k..][j] == files[k + j];
    }
  }

  /** `FirstOrDefault()`: the first name, or null. */
  function FirstPage(files: seq<string>): Option<string> {
    if files == [] then None else Some(files[0])
  }

  /** `First()`: the first name, or None where the query throws on an empty sequence. */
  function First(s: seq<string>): Option<string> {
    if s == [] then None else Some(s[0])
  }

  /** `Skip(1)`. */
  function SkipOne(s: seq<string>): seq<string> {
    if s == [] then [] else s[1..]
  }

  /** `SkipWhile(f => f != x)`: everything from the first occurrence of `x` on. */
  function SkipUntil(s: seq<string>, x: string): seq<string> {
    if s == [] then [] else if s[0] != x then SkipUntil(s[1..], x) else s
  }

  /** `TakeWhile(f => f != x)`: everything before the first occurrence of `x`. */
  function TakeUntil(s: seq<string>, x: string): seq<string> {
    if s == [] then [] else if s[0] != x then [s[0]] + TakeUntil(s[1..], x) else []
  }

  function Reverse(s: seq<string>): (r: seq<string>)
    ensures |r| == |s|
  {
    if s == [] then [] else Reverse(s[1..]) + [s[0]]
  }

  /** `btnNext_Click`: `OrderBy(f => f).SkipWhile(f => f != last).Skip(1).First()`. */
  function NextPage(files: seq<string>, last: string): Option<string> {
    First(SkipOne(SkipUntil(files, last)))
  }

  /** `btnBack_Click`: `OrderByDescending(f => f).SkipWhile(f => f != last).Skip(1).First()`. */
  function PreviousPage(files: seq<string>, last: string): Option<string> {
    First(SkipOne(SkipUntil(Reverse(files), last)))
  }

  /** `btnSave_Click`: `OrderBy(f => f).TakeWhile(f => f != last).ToList()`, then `Add(last)`. */
  function PagesToSave(files: seq<string>, last: string): seq<string> {
    TakeUntil(files, last) + [last]
  }

  lemma {:induction false} SkipUntilAt(s: seq<string>, i: nat)
    requires i < |s| && forall j :: 0 <= j < i ==> s[j] != s[i]
    ensures SkipUntil(s, s[i]) == s[i..]
  {
    if i > 0 {
      assert s[1..][i - 1] == s[i];
      SkipUntilAt(s[1..], i - 1);
      assert s[1..][i - 1..] == s[i..];
    }
  }

  lemma {:induction false} TakeUntilAt(s: seq<string>, i: nat)
    requires i < |s| && forall j :: 0 <= j < i ==> s[j] != s[i]
    ensures TakeUntil(s, s[i]) == s[..i]
  {
    if i > 0 {
      assert s[1..][i - 1] == s[i];
      TakeUntilAt(s[1..], i - 1);
      assert [s[0]] + s[1..][..i - 1] == s[..i];
    }
  }

  lemma {:induction false} ReverseAt(s: seq<string>, k: nat)
    requires k < |s|
    ensures Reverse(s)[k] == s[|s| - 1 - k]
  {
    if k < |s| - 1 {
      ReverseAt(s[1..], k);
    }
  }

  /** Next moves to the name right after `files[i]` in ascending order; past the last one it throws. */
  lemma NextPageAt(files: seq<string>, i: nat)
    requires Sorted(files) && i < |files|
    ensures NextPage(files, files[i]) == if i + 1 < |files| then Some(files[i + 1]) else None
  {
    forall j | 0 <= j < i ensures files[j] != files[i] {
      if files[j] == files[i] { SortedDistinct(files, j, i); }
    }
    SkipUntilAt(files, i);
  }

  /** Back moves to the name right before `files[i]` in ascending order; at the first one it throws. */
  lemma PreviousPageAt(files: seq<string>, i: nat)
    requires Sorted(files) && i < |files|
    ensures PreviousPage(files, files[i]) == if i > 0 then Some(files[i - 1]) else None
  {
    var r := Reverse(files);
    var n := |files|;
    var k := n - 1 - i;
    ReverseAt(files, k);
    forall j | 0 <= j < k ensures r[j] != r[k] {
      ReverseAt(files, j);
      if r[j] == r[k] { SortedDistinct(files, n - 1 - j, i); }
    }
    SkipUntilAt(r, k);
    if i > 0 {
      ReverseAt(files, k + 1);
      assert r[k..][1..][0] == r[k + 1];
    }
  }

  /** The name Next moves to is a listed name after `last` with no listed name in between. */
  lemma NextPageIsSuccessor(files: seq<string>, i: nat)
    requires Sorted(files) && i < |files| && NextPage(files, files[i]).Some?
    ensures var next := NextPage(files, files[i]).value;
      next in files && Before(files[i], next) &&
      forall f :: f in files ==> !(Before(files[i], f) && Before(f, next))
  {
    NextPageAt(files, i);
    var next := files[i + 1];
    forall f | f in files ensures !(Before(files[i], f) && Before(f, next)) {
      var m :| 0 <= m < |files| && files[m] == f;
      if m <= i {
        if m < i { BeforeAsymmetric(files[m], files[i]); } else { BeforeIrreflexive(f); }
      } else if m == i + 1 {
        BeforeIrreflexive(f);
      } else {
        BeforeAsymmetric(next, f);
      }
    }
  }

  /** The name Back moves to is a listed name before `last` with no listed name in between. */
  lemma PreviousPageIsPredecessor(files: seq<string>, i: nat)
    requires Sorted(files) && i < |files| && PreviousPage(files, files[i]).Some?
    ensures var prev := PreviousPage(files, files[i]).value;
      prev in files && Before(prev, files[i]) &&
      forall f :: f in files ==> !(Before(prev, f) && Before(f, files[i]))
  {
    PreviousPageAt(files, i);
    var prev := files[i - 1];
    forall f | f in files ensures !(Before(prev, f) && Before(f, files[i])) {
      var m :| 0 <= m < |files| && files[m] == f;
      if m >= i {
        if m > i { BeforeAsymmetric(files[i], files[m]); } else { BeforeIrreflexive(f); }
      } else if m == i - 1 {
        BeforeIrreflexive(f);
      } else {
        BeforeAsymmetric(f, prev);
      }
    }
  }

  /** The first listed name, when there is one, sorts before every other listed name. */
  lemma FirstPageIsSmallest(files: seq<string>)
    requires Sorted(files)
    ensures FirstPage(files).None? <==> files == []
    ensures FirstPage(files).Some? ==>
      FirstPage(files).value in files && forall f :: f in files && f != FirstPage(files).value ==> Before(FirstPage(files).value, f)
  {
  }

  /** Save moves the names from the first one up to and including `files[i]`, in ascending order. */
  lemma PagesToSaveAt(files: seq<string>, i: nat)
    requires Sorted(files) && i < |files|
    ensures PagesToSave(files, files[i]) == files[..i + 1]
  {
    forall j | 0 <= j < i ensures files[j] != files[i] {
      if files[j] == files[i] { SortedDistinct(files, j, i); }
    }
    TakeUntilAt(files, i);
  }

  // ---------------------------------------------------------------- target names

  predicate IsSeparator(c: char) {
    c == '\\' || c == '/' || c == ':'
  }

  /** `Path.GetExtension`: from the last '.' of the name on, unless a separator comes after it or nothing follows it. */
  function Extension(name: string): (x: string)
    ensures x == [] || (2 <= |x| <= |name| && x[0] == '.' && x == name[|name| - |x|..])
  {
    ExtensionFrom(name, |name|)
  }

  function ExtensionFrom(name: string, i: nat): (x: string)
    requires i <= |name|
    ensures x == [] || (2 <= |x| <= |name| && x[0] == '.' && x == name[|name| - |x|..])
  {
    if i == 0 then []
    else if name[i - 1] == '.' then (if i == |name| then [] else name[i - 1..])
    else if IsSeparator(name[i - 1]) then []
    else ExtensionFrom(name, i - 1)
  }

  /** The name the `k`-th moved page (from 0) gets: "Title N" when more than one page moves, "Title" for one. */
  function TargetName(title: string, pages: seq<string>, k: nat): string
    requires k < |pages|
  {
    (if |pages| > 1 then title + " " + NatToString(k + 1) else title) + Extension(pages[k])
  }

  /** Different moved pages get different names. */
  lemma TargetNamesDistinct(title: string, pages: seq<string>, i: nat, j: nat)
    requires i < j < |pages|
    ensures TargetName(title, pages, i) != TargetName(title, pages, j)
  {
    var prefix := title + " ";
    var di, dj := NatToString(i + 1), NatToString(j + 1);
    var xi, xj := Extension(pages[i]), Extension(pages[j]);
    if TargetName(title, pages, i) == TargetName(title, pages, j) {
      assert TargetName(title, pages, i) == prefix + (di + xi);
      assert TargetName(title, pages, j) == prefix + (dj + xj);
      assert (prefix + (di + xi))[|prefix|..] == di + xi;
      assert (prefix + (dj + xj))[|prefix|..] == dj + xj;
      DigitRunsDetermined(di, xi, dj, xj);
      NatToStringInjective(i + 1, j + 1);
    }
  }

  /** Every target name keeps its page's extension, after "Title N" or "Title". */
  lemma TargetNameKeepsExtension(title: string, pages: seq<string>, k: nat)
    requires k < |pages|
    ensures var x := Extension(pages[k]); var t := TargetName(title, pages, k);
      |x| <= |t| && t[|t| - |x|..] == x
  {
  }

  // ---------------------------------------------------------------- buttons

  datatype Buttons = Buttons(load: bool, artist: bool, title: bool, back: bool, next: bool, save: bool, delete: bool)

  /** The selection the form keeps: `first` is the first listed name and `last` a listed name. */
  predicate Selection(files: seq<string>, first: Option<string>, last: Option<string>) {
    && Sorted(files)
    && first == FirstPage(files)
    && (first.None? ==> last.None?)
    && (first.Some? ==> last.Some? && last.value in files)
  }

  /**
   * `setButtonStates`; `folderExists` is `Directory.Exists(textFolder.Text)`
   * and `files` the folder's current listing. None stands for the exception
   * `Last()` throws when a page is selected but the listing is empty.
   */
  function ButtonStates(folderExists: bool, files: seq<string>, first: Option<string>, last: Option<string>,
                        artist: string, title: string): (b: Option<Buttons>)
    ensures b.None? <==> first.Some? && files == []
    ensures b.Some? ==> b.value.load == folderExists && b.value.delete == first.Some?
  {
    if first.None? then Some(Buttons(folderExists, false, false, false, false, false, false))
    else if files == [] then None
    else Some(Buttons(folderExists, true, true, first != last, last != Some(files[|files| - 1]),
                      artist != "" && title != "", true))
  }

  /**
   * With nothing loaded every button but Load is off. Otherwise Back is on
   * exactly when Back's query has a name to move to, Next exactly when
   * Next's query has one, Save when artist and title are both filled in, and
   * Delete always; so the queries behind enabled buttons never throw.
   */
  lemma ButtonsFollowSelection(folderExists: bool, files: seq<string>, first: Option<string>, last: Option<string>,
                               artist: string, title: string)
    requires Selection(files, first, last)
    ensures ButtonStates(folderExists, files, first, last, artist, title).Some?
    ensures var b := ButtonStates(folderExists, files, first, last, artist, title).value;
      && b.load == folderExists
      && (first.None? ==> !b.artist && !b.title && !b.back && !b.next && !b.save && !b.delete)
      && (first.Some? ==>
            && b.artist && b.title && b.delete
            && (b.save <==> artist != "" && title != "")
            && (b.back <==> PreviousPage(files, last.value).Some?)
            && (b.next <==> NextPage(files, last.value).Some?))
  {
    if first.Some? {
      var i :| 0 <= i < |files| && files[i] == last.value;
      PreviousPageAt(files, i);
      NextPageAt(files, i);
      if i > 0 && files[0] == files[i] {
        SortedDistinct(files, 0, i);
      }
      if i < |files| - 1 && files[i] == files[|files| - 1] {
        SortedDistinct(files, i, |files| - 1);
      }
    }
  }

  // ---------------------------------------------------------------- saving

  /** A `File.Move` of a page into the artist's folder under a new name. */
  datatype Move = Move(page: string, artist: string, target: string)

  /** The moves a save makes, one per page in order. */
  function SaveMoves(artist: string, title: string, pages: seq<string>): (r: seq<Move>)
    ensures |r| == |pages|
  {
    seq(|pages|, k requires 0 <= k < |pages| => Move(pages[k], artist, TargetName(title, pages, k)))
  }

  /** The first `i + 1` moves are the first `i` and the move of page `i`. */
  lemma SaveMovesPrefix(artist: string, title: string, pages: seq<string>, i: nat)
    requires i < |pages|
    ensures SaveMoves(artist, title, pages)[..i + 1]
         == SaveMoves(artist, title, pages)[..i] + [Move(pages[i], artist, TargetName(title, pages, i))]
  {
  }

  /**
   * A save of the selection ending at `files[i]` moves exactly the pages from
   * the first listed one to `files[i]`, in order, into the artist's folder,
   * under names that are pairwise different, and leaves the rest listed.
   */
  lemma SaveMovesSelection(files: seq<string>, i: nat, artist: string, title: string)
    requires Sorted(files) && i < |files|
    ensures var pages := PagesToSave(files, files[i]); var ms := SaveMoves(artist, title, pages);
      && pages == files[..i + 1]
      && pages + files[|pages|..] == files
      && (forall k :: 0 <= k < |ms| ==> ms[k].page == files[k] && ms[k].artist == artist)
      && (forall k, l :: 0 <= k < l < |ms| ==> ms[k].target != ms[l].target)
  {
    var pages := PagesToSave(files, files[i]);
    PagesToSaveAt(files, i);
    assert pages + files[|pages|..] == files;
    var ms := SaveMoves(artist, title, pages);
    forall k, l | 0 <= k < l < |ms| ensures ms[k].target != ms[l].target {
      TargetNamesDistinct(title, pages, k, l);
    }
  }

  /**
   * As written, clearing the artist box after a save refreshes the buttons
   * while the selection still names the moved pages. When the save took the
   * last listed page the folder's listing is empty, and that refresh throws.
   */
  lemma RefreshAfterFinalSaveThrows(folderExists: bool, files: seq<string>, first: Option<string>, last: Option<string>,
                                    title: string)
    requires Selection(files, first, last) && first.Some? && last == Some(files[|files| - 1])
    ensures var pages := PagesToSave(files, last.value);
      |pages| == |files| && ButtonStates(folderExists, files[|pages|..], first, last, "", title).None?
  {
    PagesToSaveAt(files, |files| - 1);
  }
}
