# RealBookExtractor core, modelled in Dafny

RealBookExtractor is a Windows Forms tool for splitting scanned fake books
into one file per song. It has three parts, and this project models the core
of each:

- **Extraction** saves every image embedded in a PDF as a numbered PNG
  (`001.png`, `002.png`, ...).
  - Along the way it reports progress per page and records an error message
    for each image that cannot be decoded or processed, and for each page
    whose images cannot be enumerated.
  - It polls a cancellation token twice per image.
  - Before saving a 1-bit-per-pixel image, the polarity check swaps its
    two-entry palette when neither top corner looks mostly white.
- **The main window** steps through the extracted pages in name order.
  - The user grows or shrinks the group of pages that makes one song (Back,
    Next, Page Up, Page Down) or deletes the first page.
  - Save moves the group into the artist's folder, named after the title.
  - The buttons are enabled according to the selection and the two text boxes.
- **The searching combo box** completes what is typed to the first list item
  it starts.
  - It can refuse text no item starts with.
  - It handles Delete and Backspace itself. Tab is an input key only when
    `AcceptTabKey` is set, which it is not by default.
  - In read-only mode, once the `SelectedItem` setter has run, any change of
    selection not made through that setter is undone: the selection goes back to the item that was
    selected when the list was last opened.

Modules:

| file | module | contents |
|---|---|---|
| `wrappers.dfy` | `Wrappers` | `Option` |
| `decimal.dfy` | `Decimal` | `{0}` and `{0:000}` formatting of counters, and their injectivity |
| `pdf_images.dfy` | `PdfImages` | decoded images, the corner sampling and the palette swap, with the class `Bitmap` whose palette `CheckNegative` replaces |
| `pdf_extractor.dfy` | `PdfExtractor` | the extraction loop, in two forms (see below) |
| `extractor_properties.dfy` | `ExtractorProperties` | what an extraction run does |
| `page_rules.dfy` | `PageRules` | the main window's LINQ queries, target names, button states and save moves, as functions |
| `main_window.dfy` | `MainWindow` | the class `FormMain`, whose handlers update the selection, the listing and the buttons |
| `searching_combo_box.dfy` | `SearchingCombo` | `FindString`, the key-press rules as functions over a `View` of the edit box, and the class `SearchingComboBox`, whose methods are proved to follow them |

The extraction loop is described twice:

- the method `Extract`, with the loop's own variables;
- the fold `RunDocument`, which follows the loop statement by statement.

`Extract` is proved to compute `RunDocument`. The properties are then proved
of `RunDocument` against `Expected`, a reference that lists, page by page,
the effect of each image in a run that is never cancelled.

Cancellation is a parameter: a set of pairs (image number, checkpoint), one
for each poll that reports cancellation. The outside world is modelled as
inputs instead of being called:

- The PDF reader hands over a document: a sequence of pages, each with the
  images its enumeration yields.
- An image that fails is marked as such.
- The folder listing is a sorted sequence of names.
- `Directory.Exists` is a boolean.

## Model

| member | source | states |
|---|---|---|
| Decimal.NatToString | PdfExtractor.cs:51-66 | the decimal form of a page number has at least one digit, all digits, and no leading zero |
| Decimal.Pad3 | PdfExtractor.cs:58 | the `{0:000}` form of a counter is at least three digits long |
| Decimal.NatToStringValue | PdfExtractor.cs:51-66 | the digits written for n denote n |
| Decimal.LeadingZerosValue | PdfExtractor.cs:58 | zeros written in front of digits keep them digits and keep their value |
| Decimal.ZerosValue | PdfExtractor.cs:58 | a run of zeros denotes 0 |
| Decimal.Pad3Value | PdfExtractor.cs:58 | the zero-padded counter denotes the counter |
| Decimal.NatToStringInjective | FormMain.cs:103 | different numbers give different decimal strings |
| Decimal.Pad3Injective | PdfExtractor.cs:58 | different counters give different zero-padded strings |
| Decimal.Pad3Width | PdfExtractor.cs:58 | below 1000 the padded counter is exactly three digits |
| Decimal.DigitRun | FormMain.cs:103 | the leading digit run is no longer than the string |
| Decimal.DigitRunOf | FormMain.cs:103 | digits followed by nothing or a non-digit have exactly that leading digit run |
| Decimal.DigitRunsDetermined | FormMain.cs:103-105 | "N" followed by an extension (empty or starting with '.') can be split back into its number and extension in only one way |
| PdfImages.IsWhite | PdfExtractor.cs:79 | a pixel counts as white when its palette colour is white |
| PdfImages.RegionWhite | PdfExtractor.cs:75-89 | `whiteCount` after the nested x/y loops: the white pixels of a rectangle of columns over the first rows |
| PdfImages.TopLeftWhite | PdfExtractor.cs:77-83 | the top-left sample of min(W,50) by min(H,50) pixels has more white pixels than half its area, rounded down |
| PdfImages.TopRightWhite | PdfExtractor.cs:85-93 | only for W > 50: the 51 columns W−51 .. W−1 over min(H,50) rows have more white pixels than half of 50·min(H,50) |
| PdfImages.LooksNegative | PdfExtractor.cs:77-95 | neither corner sample is mostly white, so the palette is to be swapped |
| PdfImages.ColumnWhite | PdfExtractor.cs:77-81 | a column sample has at most as many white pixels as rows |
| PdfImages.Swapped | PdfExtractor.cs:96-101 | swapping the palette keeps two entries |
| PdfImages.SwappedTwice | PdfExtractor.cs:96-101 | swapping twice restores the palette |
| PdfImages.Corrected | PdfExtractor.cs:72-102 | the check keeps format, size and pixels, keeps the image 1-bpp, and leaves the palette as it was or swapped |
| PdfImages.ColumnWhiteSwapped | PdfExtractor.cs:96-101 | with one white palette entry, a swap turns a column's white count w into h − w |
| PdfImages.RegionWhiteSwapped | PdfExtractor.cs:77-93 | with one white palette entry, a swap turns a sample's white count c into its area minus c |
| PdfImages.SecondCorrectionKeeps | PdfExtractor.cs:72-102 | a negative whose top-left sample is strictly less than half white is corrected once and then left alone |
| PdfImages.HalfWhiteImage | PdfExtractor.cs:54-56 | the witness image is well-formed and 1-bpp |
| PdfImages.CorrectionNotIdempotent | PdfExtractor.cs:77-101 | an image whose top-left sample is exactly half white is swapped by every check, so a second check undoes the first |
| PdfImages.Bitmap.constructor | PdfExtractor.cs:47 | the bitmap holds the decoded image |
| PdfImages.Bitmap.SampleWhite | PdfExtractor.cs:77-81 | the nested loops count exactly the white pixels of the sample |
| PdfImages.Bitmap.TopLeftSample | PdfExtractor.cs:75-83 | the top-left test holds exactly when more than half of the min(W,50) × min(H,50) sample is white |
| PdfImages.Bitmap.TopRightSample | PdfExtractor.cs:85-93 | the top-right test holds exactly when the image is wider than 50 and its last 51 columns have more than 50 × min(H,50) / 2 white pixels in the top rows |
| PdfImages.Bitmap.CheckNegative | PdfExtractor.cs:72-102 | the bitmap afterwards is the corrected image: palette swapped exactly when neither corner test holds, nothing else changed |
| PdfExtractor.Message | PdfExtractor.cs:51-66 | the three error messages, each with the page number |
| PdfExtractor.FileName | PdfExtractor.cs:58 | the output file of image n is n padded to three digits, then ".png" |
| PdfExtractor.Processed | PdfExtractor.cs:54-56 | a 1-bpp image is saved after the polarity check, any other image as decoded |
| PdfExtractor.Fired | PdfExtractor.cs:49-57 | image n is stopped by the poll before processing, or, once decoded, by the poll before saving |
| PdfExtractor.EntryEffect | PdfExtractor.cs:50-60 | an undecodable image reports "Cannot decode", a failed processing or save reports "Couldn't process", and a good image is written under its number |
| PdfExtractor.StepEntry | PdfExtractor.cs:48-63 | one image: a fired poll returns false, otherwise the image's effect is recorded; the image counter goes up on every path |
| PdfExtractor.RunEntries | PdfExtractor.cs:47-64 | the image loop of a page, until its images end or a poll fires |
| PdfExtractor.StepPage | PdfExtractor.cs:44-67 | one page: count it, report progress, run its images, then report an enumeration failure unless cancelled |
| PdfExtractor.RunPages | PdfExtractor.cs:43-68 | the page loop, until the pages end or a poll fires |
| PdfExtractor.RunDocument | PdfExtractor.cs:40-70 | the whole loop from page counter 0 and image counter 1 |
| PdfExtractor.Flat | PdfExtractor.cs:43-47 | all images of the document in enumeration order |
| PdfExtractor.PageEffects | PdfExtractor.cs:44-67 | reference for one page: progress, one effect per image, then any enumeration error |
| PdfExtractor.DocumentEffects | PdfExtractor.cs:43-68 | reference for a run of pages, numbering images on across pages |
| PdfExtractor.Expected | PdfExtractor.cs:40-70 | reference for a run that is never cancelled |
| PdfExtractor.EntriesEffects | PdfExtractor.cs:47-64 | the reference has one effect per image |
| PdfExtractor.Extract | PdfExtractor.cs:36-71 | the result is true exactly when the fold `RunDocument` is not cancelled, and the effects are exactly the fold's; the fold's cancellation is characterised by `CancelledExactlyWhenFired` and `CancelledRunWritesBefore` |
| ExtractorProperties.EntriesEffectsTail | PdfExtractor.cs:47-64 | the reference for a page's images splits into the first image's effect, then the rest numbered one higher |
| ExtractorProperties.CancelledOnFirstImage | PdfExtractor.cs:49-57 | a poll firing on the first image stops the page's loop with the counter bumped and nothing recorded |
| ExtractorProperties.FirstImageCompletes | PdfExtractor.cs:47-64 | an image that completes adds its reference effect, and the rest of the page follows from there |
| ExtractorProperties.RunEntriesShape | PdfExtractor.cs:47-64 | a page's image loop records a prefix of its reference effects, all of them unless cancelled; a cancelled loop stopped at an image whose poll fired |
| ExtractorProperties.PageFromEntries | PdfExtractor.cs:43-67 | a page's effects are its progress report, its images' effects, then its enumeration error |
| ExtractorProperties.StepPageShape | PdfExtractor.cs:43-67 | one page records a prefix of its reference effects, all of them unless cancelled |
| ExtractorProperties.PrefixExtend | PdfExtractor.cs:43-69 | recording more effects keeps earlier ones as a prefix |
| ExtractorProperties.DocumentEffectsCons | PdfExtractor.cs:43-69 | the reference for pages is the first page's effects followed by the rest's |
| ExtractorProperties.FlatCons | PdfExtractor.cs:43-47 | the images of pages are the first page's images, then the rest's |
| ExtractorProperties.FlatAt | PdfExtractor.cs:43-47 | image g of a document is image g of its first page, or image g − k of the rest, where k is the number of images on the first page |
| ExtractorProperties.PageEffectsAt | PdfExtractor.cs:43-67 | the effect of a page's image k sits right after the progress report, at place 1 + k |
| ExtractorProperties.PageWrite | PdfExtractor.cs:58 | a file written by a page comes from one of its images, numbered by its place |
| ExtractorProperties.EntryWrite | PdfExtractor.cs:58 | an image's write carries that image's number and its processed content |
| ExtractorProperties.PrefixCompose | PdfExtractor.cs:43-69 | prefix bounds compose across pages |
| ExtractorProperties.CancelledOnFirstPage | PdfExtractor.cs:43-69 | a run cancelled on its first page ends there |
| ExtractorProperties.FirstPageCompletes | PdfExtractor.cs:43-69 | a completed first page hands its state to the rest of the run |
| ExtractorProperties.RunPagesShape | PdfExtractor.cs:43-69 | the page loop records a prefix of the reference; unless cancelled it records all of it, counts every page and numbers every image; a cancelled loop stopped at an image one of whose polls fired |
| ExtractorProperties.RunOutcome | PdfExtractor.cs:36-71 | a run does a prefix of the reference; it returns true only after doing all of it, with every page and image counted; a cancelled run stopped at an image one of whose polls fired |
| ExtractorProperties.NeverCancelledSucceeds | PdfExtractor.cs:36-71 | without cancellation the run returns true and does exactly the reference |
| ExtractorProperties.RunEntriesStops | PdfExtractor.cs:47-63 | a poll that fires at an image of a page stops the image loop at that image or before it |
| ExtractorProperties.RunPagesStops | PdfExtractor.cs:43-68 | a poll that fires at any image stops the page loop at that image or before it |
| ExtractorProperties.CancelledExactlyWhenFired | PdfExtractor.cs:43-70 | a run returns false exactly when the poll of some image fires at a checkpoint that image reaches (the second only after a successful decode); it stops at the first such image |
| ExtractorProperties.RunPagesKeeps | PdfExtractor.cs:43-68 | later pages never take back an effect already recorded |
| ExtractorProperties.RunEntriesWritesBefore | PdfExtractor.cs:47-63 | an image that decodes and saves, with no poll fired up to it, is written by its page's image loop under its own number |
| ExtractorProperties.RunPagesWritesBefore | PdfExtractor.cs:43-68 | the same for a run of pages |
| ExtractorProperties.FirstPageWrites | PdfExtractor.cs:43-68 | the same, for an image on the first page |
| ExtractorProperties.LaterPageWrites | PdfExtractor.cs:43-68 | the same, for an image on a later page: the first page completes without cancellation |
| ExtractorProperties.CancelledRunWritesBefore | PdfExtractor.cs:40-70 | a run, cancelled or not, writes every image before the one it stopped at that decodes and saves, as `FileName` of its number and in processed form |
| ExtractorProperties.RunEntriesOrdered | PdfExtractor.cs:47-64 | a page's image loop writes files with strictly increasing numbers below its image counter |
| ExtractorProperties.RunPagesOrdered | PdfExtractor.cs:43-69 | so does the page loop |
| ExtractorProperties.FileNameInjective | PdfExtractor.cs:58 | different counters give different `NNN.png` names |
| ExtractorProperties.SavedNamesDistinct | PdfExtractor.cs:40-64 | a run, cancelled or not, never writes the same file name twice; it writes in increasing order, and a cancelled run writes nothing numbered from the cancelled image on |
| ExtractorProperties.WriteOriginCompose | PdfExtractor.cs:43-69 | where a written file comes from composes across pages |
| ExtractorProperties.PageWriteOrigin | PdfExtractor.cs:47-64 | each file a page writes comes from its own image with that number |
| ExtractorProperties.DocumentWriteOrigin | PdfExtractor.cs:43-69 | each file the reference writes comes from the image with that number overall |
| ExtractorProperties.DocumentWritesGoodImage | PdfExtractor.cs:47-64 | every decoded image whose save succeeds is written, under its own number, in processed form |
| ExtractorProperties.SavedFileOrigin | PdfExtractor.cs:47-64 | every written file is the image with that number overall (null and failing images count too); it was decoded and saved, kept as is unless 1-bpp, and otherwise differs at most by a palette swap |
| ExtractorProperties.GoodImagesSaved | PdfExtractor.cs:40-64 | without cancellation, image g+1 overall is written as number g+1 whenever it decodes and saves |
| ExtractorProperties.DiffersPrefixed | PdfExtractor.cs:43-69 | a single difference in the effects survives adding earlier effects |
| ExtractorProperties.DiffersSuffixed | PdfExtractor.cs:43-69 | a single difference in the effects survives adding later effects |
| ExtractorProperties.ReplaceInPage | PdfExtractor.cs:47-64 | changing one image of a page changes exactly its effect in that page's reference |
| ExtractorProperties.ReplaceOnFirstPage | PdfExtractor.cs:43-69 | the same, for an image on the first page of a run of pages |
| ExtractorProperties.ReplaceOnLaterPage | PdfExtractor.cs:43-69 | the same, for an image on a later page |
| ExtractorProperties.ReplaceOneEffect | PdfExtractor.cs:43-69 | changing one image changes exactly one effect of the reference, at that image's place |
| ExtractorProperties.FailureIsolation | PdfExtractor.cs:47-67 | a null, failing or different image changes exactly one effect of an uncancelled run, the one at its place: every other image keeps its effect and number |
| ExtractorProperties.Progresses | PdfExtractor.cs:45 | there are no more progress reports than effects |
| ExtractorProperties.ProgressesMembers | PdfExtractor.cs:45 | the progress reports of the effects are exactly their `Progress` effects: every one of them, and nothing else (their order is kept, by `ProgressesAppend`) |
| ExtractorProperties.ProgressesAppend | PdfExtractor.cs:45 | the progress reports of two runs of effects are those of the first, then those of the second |
| ExtractorProperties.NoProgressInEntries | PdfExtractor.cs:47-64 | images report no progress |
| ExtractorProperties.PageProgress | PdfExtractor.cs:43-45 | a page reports progress once, with its number and the page count |
| ExtractorProperties.Reports | PdfExtractor.cs:43-45 | the expected reports are (before+1, N), (before+2, N), ... |
| ExtractorProperties.DocumentProgress | PdfExtractor.cs:43-45 | the reference reports progress once per page, in page order |
| ExtractorProperties.ProgressesPrefix | PdfExtractor.cs:45 | a prefix of the effects has a prefix of the reports |
| ExtractorProperties.ProgressReports | PdfExtractor.cs:40-45 | a run reports (1, N), (2, N), ... in order: all N reports unless cancelled, the first ones otherwise |
| ExtractorProperties.MessageInjective | PdfExtractor.cs:51-66 | different error records have different messages, so the kind and the page can be read back |
| PageRules.Before | FormMain.cs:58 | the order of `OrderBy(f => f)` on names, taken as ordinal: the first differing character decides, and a proper prefix sorts first |
| PageRules.Sorted | FormMain.cs:58 | a listing in strictly ascending `OrderBy` order |
| PageRules.FirstPage | FormMain.cs:59 | `FirstOrDefault`: the first name of the sorted listing, or none |
| PageRules.First | FormMain.cs:72-79 | `First`: the first name, or none where the query throws |
| PageRules.SkipOne | FormMain.cs:72-79 | `Skip(1)`: the listing without its first name, or nothing |
| PageRules.SkipUntil | FormMain.cs:72-79 | `SkipWhile(f => f != last)`: the listing from the first occurrence of the name on |
| PageRules.TakeUntil | FormMain.cs:97 | `TakeWhile(f => f != last)`: the listing before the first occurrence of the name |
| PageRules.NextPage | FormMain.cs:78-79 | Next: the name after the last page in ascending order |
| PageRules.PreviousPage | FormMain.cs:71-72 | Back: the name after the last page in descending order |
| PageRules.PagesToSave | FormMain.cs:96-98 | Save: the names before the last page, then the last page |
| PageRules.TargetName | FormMain.cs:100-105 | the k-th moved page is named "Title k+1" when several pages move and "Title" for one, plus its extension |
| PageRules.Selection | FormMain.cs:57-59 | the form's selection: a sorted listing, the first page its first name, the last page a listed name |
| PageRules.BeforeIrreflexive | FormMain.cs:58 | no name sorts before itself |
| PageRules.BeforeAsymmetric | FormMain.cs:58 | of two names at most one sorts before the other |
| PageRules.SortedDistinct | FormMain.cs:58 | a sorted listing repeats no name |
| PageRules.SortedSuffix | FormMain.cs:96-109 | what is left after saving the first pages is still sorted |
| PageRules.Reverse | FormMain.cs:71-72 | descending order lists as many names |
| PageRules.SkipUntilAt | FormMain.cs:71-79 | `SkipWhile(f => f != x)` starts at the first occurrence of x |
| PageRules.TakeUntilAt | FormMain.cs:96-97 | `TakeWhile(f => f != x)` stops before the first occurrence of x |
| PageRules.ReverseAt | FormMain.cs:71-72 | descending order puts the k-th name from the end at place k |
| PageRules.NextPageAt | FormMain.cs:77-82 | Next moves from files[i] to files[i+1], and throws past the last name |
| PageRules.PreviousPageAt | FormMain.cs:70-75 | Back moves from files[i] to files[i−1], and throws at the first name |
| PageRules.NextPageIsSuccessor | FormMain.cs:77-82 | Next moves to a listed name after the current one, with no listed name in between |
| PageRules.PreviousPageIsPredecessor | FormMain.cs:70-75 | Back moves to a listed name before the current one, with no listed name in between |
| PageRules.FirstPageIsSmallest | FormMain.cs:57-59 | `FirstOrDefault` is null exactly for an empty folder; otherwise it is the listed name that sorts first |
| PageRules.PagesToSaveAt | FormMain.cs:96-98 | Save takes the names from the first one up to and including the last page |
| PageRules.Extension | FormMain.cs:105 | `GetExtension` is empty, or a suffix of the name of length at least 2 starting with '.' |
| PageRules.ExtensionFrom | FormMain.cs:105 | the same, scanning back from a position |
| PageRules.TargetNamesDistinct | FormMain.cs:99-105 | different pages of one save get different target names |
| PageRules.TargetNameKeepsExtension | FormMain.cs:105 | each target name ends with its page's extension |
| PageRules.ButtonStates | FormMain.cs:24-37 | Load follows the folder's existence and Delete the presence of a selection; the refresh throws exactly when a page is selected but the folder is empty |
| PageRules.ButtonsFollowSelection | FormMain.cs:24-82 | with nothing loaded only Load can be on; otherwise Back is on exactly when Back's query has a page to move to, Next exactly when Next's query has one, Save exactly when both boxes are filled in, and so no enabled button throws |
| PageRules.SaveMoves | FormMain.cs:101-107 | one move per page |
| PageRules.SaveMovesPrefix | FormMain.cs:101-107 | the moves are made page by page in order |
| PageRules.SaveMovesSelection | FormMain.cs:93-107 | Save moves exactly the pages from the first listed one to the last page, in order, into the artist's folder, under pairwise different names, and leaves the rest listed |
| PageRules.RefreshAfterFinalSaveThrows | FormMain.cs:93-110 | clearing the boxes after saving the last listed page refreshes the buttons over an empty folder with a stale selection, and that refresh throws |
| MainWindow.FormMain.constructor | FormMain.cs:19-22 | the form starts with nothing loaded and every button off |
| MainWindow.FormMain.SetButtonStates | FormMain.cs:24-37 | the buttons become those of the selection and both boxes |
| MainWindow.FormMain.FolderTextChanged | FormMain.cs:48-50 | Load follows whether the typed folder exists |
| MainWindow.FormMain.DisplayPage | FormMain.cs:57-68 | both ends of the selection go to the first listed name, and the buttons match |
| MainWindow.FormMain.LoadClick | FormMain.cs:52-55 | the folder in the box is loaded and its first page selected |
| MainWindow.FormMain.BackClick | FormMain.cs:70-75 | an enabled Back does not throw; the last page moves to the one before it |
| MainWindow.FormMain.NextClick | FormMain.cs:77-82 | an enabled Next does not throw; the last page moves to the one after it |
| MainWindow.FormMain.TextChanged | FormMain.cs:84-86 | Save is on exactly when both boxes are filled in |
| MainWindow.FormMain.DeleteClick | FormMain.cs:88-91 | the first page is deleted, and the selection starts again at the next one |
| MainWindow.FormMain.SaveClick | FormMain.cs:93-110 | the group's pages are moved in order under their target names and drop out of the listing; the boxes are cleared and the first remaining page is selected |
| MainWindow.FormMain.ShowRest | FormMain.cs:108-109 | the remaining pages are listed, the boxes are cleared and the first one is selected |
| MainWindow.FormMain.MovePages | FormMain.cs:99-107 | the loop makes exactly the save's moves, in order |
| MainWindow.FormMain.KeyDown | FormMain.cs:112-116 | Page Up acts as Back and Page Down as Next, each only when its button is enabled |
| SearchingCombo.Fold | SearchingComboBox.cs:140-174 | the case folding of `FindString`'s match: an ASCII capital becomes its small letter, every other character stays |
| SearchingCombo.StartsWith | SearchingComboBox.cs:140-174 | `FindString`'s match test: the item starts with the text, ignoring case |
| SearchingCombo.Admits | SearchingComboBox.cs:171-176 | the `Text` setter takes the empty text only when `AllowNoSelection` is on, and a non-empty text, with the input bound to the list, only when the first item it starts with is that text |
| SearchingCombo.Assign | SearchingComboBox.cs:169-180 | `Text = value`: refused, or taken with the caret after it |
| SearchingCombo.AfterPrefix | SearchingComboBox.cs:153-154 | the caret after the prefix, with the rest of the text selected |
| SearchingCombo.PrefixApplied | SearchingComboBox.cs:125-154 | the branches of the key press for a typed prefix: first item, emptied box, ignored key, free text, completed item |
| SearchingCombo.KeyPress | SearchingComboBox.cs:114-154 | a key press: the typed prefix, then its branch |
| SearchingCombo.FindString | SearchingComboBox.cs:140 | the result is the first item the text starts with, ignoring case, or −1 exactly when there is none |
| SearchingCombo.FindFrom | SearchingComboBox.cs:140 | the same, searching from a position |
| SearchingCombo.StartsWithTransitive | SearchingComboBox.cs:140 | a prefix of a prefix is a prefix |
| SearchingCombo.AdmitsOnlyItems | SearchingComboBox.cs:169-180 | with input bound to the list, the Text setter takes only the empty text (when allowed) and listed items |
| SearchingCombo.ListedItemRefused | SearchingComboBox.cs:169-180 | the setter refuses some listed items: one that an earlier item starts with |
| SearchingCombo.FoundItemAdmitted | SearchingComboBox.cs:140-180 | the item a prefix completes to is one the setter takes, and searching for it finds it again |
| SearchingCombo.TypedPrefix | SearchingComboBox.cs:115-123 | the prefix is the text before the selection plus the key, or, for Backspace, that text one character shorter (empty when it had at most one character) |
| SearchingCombo.KeyPressValid | SearchingComboBox.cs:106-156 | a key press leaves the selection within the text |
| SearchingCombo.KeyPressListed | SearchingComboBox.cs:106-156 | with input bound to the list, the box only ever shows an item or nothing |
| SearchingCombo.KeyPressCompletes | SearchingComboBox.cs:140-154 | a prefix that matches completes to the first matching item; the caret stands after the typed part and the rest of the item is selected |
| SearchingCombo.KeyPressRefusesUnmatched | SearchingComboBox.cs:141-145 | with input bound to the list, a key press that makes the prefix match no item changes nothing |
| SearchingCombo.KeyPressFreeText | SearchingComboBox.cs:146-154 | without that binding, an unmatched prefix is shown as typed, with the caret after it |
| SearchingCombo.KeyPressEmptied | SearchingComboBox.cs:125-138 | with `AllowNoSelection` on, emptying the prefix clears the box and the selection; with it off, a selected item makes the box show the first item, wholly selected, except that an empty first item is refused and the old text is wholly selected instead; with nothing selected the box stays as it was |
| SearchingCombo.BackspaceShortens | SearchingComboBox.cs:115-120 | Backspace keeps one character fewer of the text before the caret |
| SearchingCombo.SearchingComboBox.constructor | SearchingComboBox.cs:16-30 | the control starts empty and bound to its list; an empty selection is allowed, Tab is not taken, it is not read-only, and the revert is off |
| SearchingCombo.SearchingComboBox.SetText | SearchingComboBox.cs:169-180 | the box takes exactly the texts the guard allows, with the caret after them, and otherwise stays as it was |
| SearchingCombo.SearchingComboBox.BaseSelectItem | SearchingComboBox.cs:188-207 | null clears the selection, a listed item is selected, anything else is ignored; a change notifies the subscribers once and reports whether they threw; in read-only mode with the revert on, a change instead ends at the item saved at drop-down, and the subscribers are told of that item only when the change moved away from it |
| SearchingCombo.SearchingComboBox.OnSelectedIndexChanged | SearchingComboBox.cs:188-195 | in read-only mode with the revert on (`_useSavedItem`, set by the `SelectedItem` setter), the selection goes back to the item saved at the last drop-down, the subscribers are told of it once if it differed, and the revert stays on; otherwise the subscribers are told of the selection |
| SearchingCombo.SearchingComboBox.SetSelectedItem | SearchingComboBox.cs:197-207 | the selection changes as the base setter's does, with no revert meanwhile; the revert is switched back on, also when a subscriber threw |
| SearchingCombo.SearchingComboBox.OnDropDown | SearchingComboBox.cs:183-186 | opening the list saves the selected item |
| SearchingCombo.SearchingComboBox.IsInputKey | SearchingComboBox.cs:101-104 | Tab is an input key exactly when the control accepts Tab; other keys follow the base control |
| SearchingCombo.SearchingComboBox.OnKeyDown | SearchingComboBox.cs:42-53 | exactly read-only mode and Delete are handled; Delete with the whole text selected and `AllowNoSelection` on empties the box and clears the selection, telling the subscribers once if something was selected; otherwise nothing changes; the revert flag is untouched |
| SearchingCombo.SearchingComboBox.OnKeyUp | SearchingComboBox.cs:158-162 | a key up is handled exactly in read-only mode |
| SearchingCombo.SearchingComboBox.OnKeyPress | SearchingComboBox.cs:106-156 | every key is handled; read-only changes nothing, otherwise the box becomes what the key-press rules say; the subscribers are told once exactly when the selection changed, and the revert flag is untouched |
| SearchingCombo.SearchingComboBox.ApplyPrefix | SearchingComboBox.cs:125-154 | the box becomes what the key-press rules give for the typed prefix; the subscribers are told once exactly when the selection changed, and the revert flag is untouched |
| SearchingCombo.SearchingComboBox.Complete | SearchingComboBox.cs:140-154 | the same, for a prefix that is not empty; only the text and its selection can change |

## Left out

- File and GDI+ I/O is not modelled: the PDF reader, the image codec, `Image.Save`, `Directory.CreateDirectory`, `File.Move`, `File.Delete`, loading and showing pictures, and `Process.Start`. The document, the listing and the failure flags are inputs. Moves and deletions are recorded as lists, and a move or delete that throws is not modelled.
- Where an image fails: a failing image is either `Broken` (it throws before the save, with the same message as a failing save) or a decoded image whose save throws. The kind of exception is not modelled.
- An enumeration failure is modelled after the images the page yielded, and the page's loop then ends. A failure before any image is a page with no images and that flag set.
- Decoded images are always well-formed: the grid matches the stated size, and a 1-bpp image has two palette entries. The image codec's own checks are not modelled.
- PdfImages.RegionWhite: has no contract of its own; the bound on its count by the sample's area is not stated.
- The threads and events of `ExtractAsync`, and the progress form, are not modelled. Progress reports are entries in the effect list.
- `CompatiblePdfReader.cs`, `Extensions.cs`, `FormExtract.cs` and `FormExtractProgress.cs` are not part of this model.
- Ordering is ordinal: the model has no culture-sensitive string comparison for `OrderBy`.
- `Directory.GetFiles(...).Last()` in `setButtonStates` is modelled as the last name of the sorted listing, although `GetFiles` itself promises no order.
- The `AcceptButton` assignment in `setButtonStates`, focusing the artist box, and the pictures are not modelled.
- MainWindow.FormMain.SaveClick: refreshes the buttons for the new listing only. The refresh made when the boxes are cleared, before the first page is shown again, is covered by `RefreshAfterFinalSaveThrows` (see Findings).
- MainWindow.FormMain.SetButtonStates: requires a selection whose queries cannot throw, so the throwing case is modelled only by `PageRules.ButtonStates`.
- The combo box's list items are their `ToString()` texts, and an item is identified by its place in the list.
- The base `ComboBox`'s own behaviour when `Text` or `SelectedItem` is set (auto-selecting a matching item, moving the caret) is not modelled. After the setter, the caret stands after the text with nothing selected.
- Only `SetSelectedItem` models a subscriber that throws. The other calls assume subscribers return normally.
- `FindString`'s case-insensitive match folds only the ASCII letters.
- SearchingCombo.SearchingComboBox.OnKeyDown: takes the base `OnKeyDown` call as doing nothing to the box.

The model follows the code where one might expect otherwise:

- Running the polarity check twice is not the same as running it once (`CorrectionNotIdempotent`). The top-left test compares with half of the sample, and an image exactly half white fails the test both before and after the swap.
- The top-right sample covers the 51 columns from W−51 to W−1, but its count is compared with half of 50 × min(H,50).
- When `AllowNoSelection` is off, setting `Text` to "" is refused, so emptying the prefix leaves the box as it was when nothing is selected. When an item is selected and the first item is "", the fall-back to the first item is refused the same way, and the old text stays, wholly selected (`KeyPressEmptied`).
- The `Text` setter does not take every listed item. With the list ["Ab", "a"] it refuses "a", because the first item starting with "a" is "Ab" (`ListedItemRefused`).

## Findings

| source | as written | input that shows it | evidently intended | confidence | as-written member | corrected member |
|---|---|---|---|---|---|---|
| FormMain.cs:108 | `textArtist.Text = ""` fires `text_Changed`, so `setButtonStates` (line 33) runs while `_firstPage` still names a moved page. When the save took every remaining page, the folder is empty and `GetFiles(...).Last()` throws | a folder with the single page "a.jpg", artist and title filled in, Save clicked | clearing the boxes after a save refreshes the buttons for the pages that are left, and an empty folder leaves only Load enabled | not executed | PageRules.RefreshAfterFinalSaveThrows | MainWindow.FormMain.SaveClick |
