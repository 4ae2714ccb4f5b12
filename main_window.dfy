/**
 * The main window as an object: its handlers update the selected group of
 * pages, the text boxes and the buttons, and move or delete pages in the
 * loaded folder. The folder's contents are a field holding its names in
 * ascending order; the pictures shown are not modelled.
 */
module MainWindow {
  import opened Wrappers
  import opened Decimal
  import opened PageRules

  datatype Key = PageUp | PageDown | OtherKey(code: int)

  class FormMain {
    /** `textFolder.Text` and whether `Directory.Exists` holds for it. */
    var folderText: string
    var folderExists: bool
    /** `_jpgFolder`, null until Load is clicked. */
    var jpgFolder: Option<string>
    /** The file names in the loaded folder, ascending. */
    var files: seq<string>
    /** `_firstPage` and `_lastPage`: the group of pages that will become one song. */
    var firstPage: Option<string>
    var lastPage: Option<string>
    /** `textArtist.Text` and `textTitle.Text`. */
    var artist: string
    var title: string
    /** The Enabled flags `setButtonStates` last assigned. */
    var buttons: Buttons
    /** Every page moved or deleted so far, in order. */
    var moved: seq<Move>
    var deleted: seq<string>

    /** The selection is a range of the listing starting at its first name, and the buttons match it. */
    ghost predicate Valid()
      reads this
    {
      && Selection(files, firstPage, lastPage)
      && (firstPage.Some? ==> jpgFolder.Some?)
      && ButtonStates(folderExists, files, firstPage, lastPage, artist, title) == Some(buttons)
    }

    /** The form opens with an empty folder box and nothing loaded. */
    constructor ()
      ensures Valid()
      ensures folderText == "" && !folderExists && jpgFolder == None && files == []
      ensures firstPage == None && lastPage == None && artist == "" && title == ""
      ensures buttons == Buttons(false, false, false, false, false, false, false)
      ensures moved == [] && deleted == []
    {
      folderText, folderExists := "", false;
      jpgFolder, files := None, [];
      firstPage, lastPage := None, None;
      artist, title := "", "";
      moved, deleted := [], [];
      buttons := Buttons(false, false, false, false, false, false, false);
    }

    /** `setButtonStates`, for a selection whose queries cannot throw. */
    method SetButtonStates()
      requires Selection(files, firstPage, lastPage)
      modifies this`buttons
      ensures Some(buttons) == ButtonStates(folderExists, files, firstPage, lastPage, artist, title)
    {
      ButtonsFollowSelection(folderExists, files, firstPage, lastPage, artist, title);
      if firstPage.None? {
        buttons := Buttons(folderExists, false, false, false, false, false, false);
        return;
      }
      var back := firstPage != lastPage;
      var next := lastPage != Some(files[|files| - 1]);
      var save := artist != "" && title != "";
      buttons := Buttons(folderExists, true, true, back, next, save, true);
    }

    /** `textFolder_TextChanged`: only Load follows the folder box. */
    method FolderTextChanged(text: string, present: bool)
      requires Valid()
      modifies this`folderText, this`folderExists, this`buttons
      ensures Valid()
      ensures folderText == text && folderExists == present && buttons.load == present
    {
      folderText, folderExists := text, present;
      SetButtonStates();
    }

    /** `displayPage`: both ends of the selection go to the first listed name. */
    method DisplayPage()
      requires jpgFolder.Some? && Sorted(files)
      modifies this`firstPage, this`lastPage, this`buttons
      ensures Valid()
      ensures firstPage == FirstPage(files) && lastPage == firstPage
    {
      firstPage := FirstPage(files);
      lastPage := firstPage;
      SetButtonStates();
    }

    /** `btnLoad_Click`: load the folder named in the box, given its names in ascending order. */
    method LoadClick(listing: seq<string>)
      requires Valid() && buttons.load && Sorted(listing)
      modifies this`jpgFolder, this`files, this`firstPage, this`lastPage, this`buttons
      ensures Valid()
      ensures jpgFolder == Some(folderText) && files == listing
      ensures firstPage == FirstPage(listing) && lastPage == firstPage
    {
      jpgFolder := Some(folderText);
      files := listing;
      DisplayPage();
    }

    /** `btnBack_Click`: the group loses its last page. */
    method BackClick()
      requires Valid() && buttons.back
      modifies this`lastPage, this`buttons
      ensures Valid()
      ensures old(lastPage).Some? && PreviousPage(files, old(lastPage).value).Some?
      ensures lastPage == PreviousPage(files, old(lastPage).value)
    {
      ButtonsFollowSelection(folderExists, files, firstPage, lastPage, artist, title);
      var i :| 0 <= i < |files| && files[i] == lastPage.value;
      PreviousPageAt(files, i);
      lastPage := PreviousPage(files, lastPage.value);
      SetButtonStates();
    }

    /** `btnNext_Click`: the group gains the next listed page. */
    method NextClick()
      requires Valid() && buttons.next
      modifies this`lastPage, this`buttons
      ensures Valid()
      ensures old(lastPage).Some? && NextPage(files, old(lastPage).value).Some?
      ensures lastPage == NextPage(files, old(lastPage).value)
    {
      ButtonsFollowSelection(folderExists, files, firstPage, lastPage, artist, title);
      var i :| 0 <= i < |files| && files[i] == lastPage.value;
      NextPageAt(files, i);
      lastPage := NextPage(files, lastPage.value);
      SetButtonStates();
    }

    /** `text_Changed`: the artist or title box was edited. */
    method TextChanged(newArtist: string, newTitle: string)
      requires Valid()
      modifies this`artist, this`title, this`buttons
      ensures Valid()
      ensures artist == newArtist && title == newTitle
      ensures firstPage.Some? ==> (buttons.save <==> newArtist != "" && newTitle != "")
    {
      artist, title := newArtist, newTitle;
      SetButtonStates();
      ButtonsFollowSelection(folderExists, files, firstPage, lastPage, artist, title);
    }

    /** `btnDelete_Click`: delete the first page of the group and start again from the next one. */
    method DeleteClick()
      requires Valid() && buttons.delete
      modifies this`deleted, this`files, this`firstPage, this`lastPage, this`buttons
      ensures Valid()
      ensures old(files) != [] && deleted == old(deleted) + [old(files)[0]] && files == old(files)[1..]
      ensures firstPage == FirstPage(files) && lastPage == firstPage
    {
      deleted := deleted + [firstPage.value];
      files := files[1..];
      DisplayPage();
    }

    /**
     * `btnSave_Click`: move the group's pages into the artist's folder, named
     * after the title, clear both boxes and start again from the first page
     * still listed. The buttons are refreshed for the new listing only; see
     * `RefreshAfterFinalSaveThrows` for the refresh the source makes before.
     */
    method SaveClick()
      requires Valid() && buttons.save
      modifies this`moved, this`files, this`artist, this`title, this`firstPage, this`lastPage, this`buttons
      ensures Valid()
      ensures old(lastPage).Some?
      ensures var pages := PagesToSave(old(files), old(lastPage).value);
        && |pages| <= |old(files)|
        && moved == old(moved) + SaveMoves(old(artist), old(title), pages)
        && files == old(files)[|pages|..]
      ensures artist == "" && title == ""
      ensures firstPage == FirstPage(files) && lastPage == firstPage
    {
      var last :| 0 <= last < |files| && files[last] == lastPage.value;
      PagesToSaveAt(files, last);
      SortedSuffix(files, last + 1);
      var pages := PagesToSave(files, lastPage.value);
      MovePages(pages);
      ShowRest(files[last + 1..]);
    }

    /** The end of `btnSave_Click`: the remaining names are listed, both boxes cleared, the first page shown. */
    method ShowRest(rest: seq<string>)
      requires jpgFolder.Some? && Sorted(rest)
      modifies this`files, this`artist, this`title, this`firstPage, this`lastPage, this`buttons
      ensures Valid()
      ensures files == rest && artist == "" && title == ""
      ensures firstPage == FirstPage(rest) && lastPage == firstPage
    {
      files := rest;
      artist, title := "", "";
      DisplayPage();
    }

    /** The `foreach` of `btnSave_Click`: one move per page, numbered from 1 when there are several. */
    method MovePages(pages: seq<string>)
      modifies this`moved
      ensures moved == old(moved) + SaveMoves(artist, title, pages)
    {
      var count := 0;
      var counter := |pages| > 1;
      var i := 0;
      while i < |pages|
        invariant 0 <= i <= |pages|
        invariant count == if counter then i else 0
        invariant moved == old(moved) + SaveMoves(artist, title, pages)[..i]
      {
        var page := pages[i];
        var name;
        if counter {
          count := count + 1;
          name := title + " " + NatToString(count);
        } else {
          name := title;
        }
        name := name + Extension(page);
        assert name == TargetName(title, pages, i);
        SaveMovesPrefix(artist, title, pages, i);
        moved := moved + [Move(page, artist, name)];
        i := i + 1;
      }
      assert SaveMoves(artist, title, pages)[..i] == SaveMoves(artist, title, pages);
    }

    /** `OnKeyDown`: Page Up acts as Back and Page Down as Next, when those buttons are enabled. */
    method KeyDown(key: Key)
      requires Valid()
      modifies this`lastPage, this`buttons
      ensures Valid()
      ensures old(lastPage).Some? ==>
        lastPage == if key == PageUp && old(buttons.back) then PreviousPage(files, old(lastPage).value)
                    else if key == PageDown && old(buttons.next) then NextPage(files, old(lastPage).value)
                    else old(lastPage)
      ensures old(lastPage).None? ==> lastPage == None
    {
      if key == PageUp && buttons.back {
        BackClick();
      }
      if key == PageDown && buttons.next {
        NextClick();
      }
    }
  }
}
