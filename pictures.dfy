/** The picture gallery script (static/scripts/pictures.js): the list of images the page knows,
    how many of them are shown, batch loading, the pending-delete confirmation, and the list
    updates after a delete or an upload. The DOM is reduced to the sequence of cards in the
    gallery grid; requests to the server are reduced to their outcome. */
module Pictures {
  import opened Wrappers
  import opened Strings
  import opened JsValues
  import opened Escaping

  /** `esc(v)`: `String(v)` with the HTML special characters replaced by entities. */
  function Esc(v: JsValue): (r: string)
    ensures '<' !in r && '>' !in r && '"' !in r && '\'' !in r
  {
    HtmlEscapeNoRawSpecials(ToJsString(v));
    HtmlEscape(ToJsString(v))
  }

  /** `escJs(v)`: `String(v)` prepared for a single-quoted JavaScript literal. */
  function EscJs(v: JsValue): (r: string)
    ensures '\n' !in r
  {
    JsEscape(ToJsString(v))
  }

  /** The browser reads back what `esc` printed. */
  lemma EscRoundTrip(v: JsValue)
    ensures DecodeEntities(Esc(v)) == ToJsString(v)
    ensures var r := Esc(v); '<' !in r && '>' !in r && '"' !in r && '\'' !in r
  {
    HtmlRoundTrip(ToJsString(v));
    HtmlEscapeNoRawSpecials(ToJsString(v));
  }

  /** `esc(null)` prints the word "null": `String` is applied without a fallback. */
  lemma EscNull()
    ensures Esc(Null) == "null"
  {
    HtmlEscapePlain("null");
  }

  /** The JavaScript parser reads back what `escJs` printed, unless the text holds a carriage
      return. */
  lemma EscJsRoundTrip(v: JsValue)
    requires '\r' !in ToJsString(v)
    ensures UnescapeJs(EscJs(v)) == Some(ToJsString(v))
  {
    JsRoundTrip(ToJsString(v));
  }

  /** An image as the page receives it; title and description may be null. */
  datatype Image = Image(filename: string, title: JsValue, description: JsValue)

  /** A gallery item: its file name and the title and description it records, which
      `addImageToGallery` shows with its defaults applied, `cancelEdit` restores and the
      lightbox receives. */
  datatype Card = Card(filename: string, title: string, description: string)

  /** `addImageToGallery`'s defaults: a falsy title falls back to the file name, a falsy
      description to the empty string. */
  function CardOf(filename: string, title: JsValue, description: JsValue): (c: Card)
    ensures c.filename == filename
    ensures Falsy(title) ==> c.title == filename
    ensures !Falsy(title) ==> c.title == ToJsString(title) && c.title != []
    ensures c.description == [] <==> Falsy(description)
    ensures !Falsy(description) ==> c.description == ToJsString(description)
  {
    TruthyPrintsNonEmpty(title);
    TruthyPrintsNonEmpty(description);
    var shownTitle := if Falsy(title) then Str(filename) else title;
    var shownDescription := if Falsy(description) then Str("") else description;
    Card(filename, ToJsString(shownTitle), ToJsString(shownDescription))
  }

  /** The cards for a run of images, in order. */
  function Cards(images: seq<Image>): (r: seq<Card>)
    ensures |r| == |images|
    ensures forall i :: 0 <= i < |images| ==>
              r[i] == CardOf(images[i].filename, images[i].title, images[i].description)
  {
    seq(|images|, i requires 0 <= i < |images| =>
      CardOf(images[i].filename, images[i].title, images[i].description))
  }

  lemma CardsAppend(a: seq<Image>, b: seq<Image>)
    ensures Cards(a + b) == Cards(a) + Cards(b)
  {
  }

  /** Putting an image first and counting it as loaded puts its card first. */
  lemma PrependShown(images: seq<Image>, n: nat, img: Image)
    requires n <= |images|
    ensures Cards(([img] + images)[..n + 1])
            == [CardOf(img.filename, img.title, img.description)] + Cards(images[..n])
  {
    assert ([img] + images)[..n + 1] == [img] + images[..n];
    CardsAppend([img], images[..n]);
  }

  /** Showing the images from `n` to `m` after the first `n` shows the first `m`. */
  lemma ExtendShown(images: seq<Image>, n: nat, m: nat)
    requires n <= m <= |images|
    ensures Cards(images[..m]) == Cards(images[..n]) + Cards(images[n..m])
  {
    assert images[..m] == images[..n] + images[n..m];
    CardsAppend(images[..n], images[n..m]);
  }

  /** Showing one more image of a run adds its card at the end. */
  lemma CardsSnoc(images: seq<Image>, i: nat)
    requires i < |images|
    ensures Cards(images[..i + 1])
            == Cards(images[..i]) + [CardOf(images[i].filename, images[i].title, images[i].description)]
  {
    assert images[..i + 1] == images[..i] + [images[i]];
    CardsAppend(images[..i], [images[i]]);
  }

  const BatchSize: nat := 15

  function Min(a: int, b: int): int { if a <= b then a else b }
  function Max(a: int, b: int): int { if a >= b then a else b }

  /** The index of the first image with the given file name, -1 when there is none
      (`Array.prototype.findIndex`). */
  function FindIndex(images: seq<Image>, filename: string): (r: int)
    ensures -1 <= r < |images|
    ensures r == -1 <==> forall i :: 0 <= i < |images| ==> images[i].filename != filename
    ensures r >= 0 ==> images[r].filename == filename
    ensures r >= 0 ==> forall i :: 0 <= i < r ==> images[i].filename != filename
  {
    if images == [] then -1
    else if images[0].filename == filename then 0
    else
      var k := FindIndex(images[1..], filename);
      if k == -1 then -1 else k + 1
  }

  /** The list after `splice(findIndex(...), 1)`: the first image with the file name removed,
      the list unchanged when there is none. */
  function RemoveFirst(images: seq<Image>, filename: string): (r: seq<Image>)
    ensures FindIndex(images, filename) == -1 ==> r == images
    ensures FindIndex(images, filename) >= 0 ==> |r| == |images| - 1
  {
    var k := FindIndex(images, filename);
    if k == -1 then images else images[..k] + images[k + 1..]
  }

  /** With distinct file names, a delete leaves no image with the deleted name and the names
      stay distinct. */
  lemma RemoveFirstDropsName(images: seq<Image>, filename: string)
    requires DistinctNames(images)
    ensures DistinctNames(RemoveFirst(images, filename))
    ensures forall i :: 0 <= i < |RemoveFirst(images, filename)| ==>
              RemoveFirst(images, filename)[i].filename != filename
  {
    var k := FindIndex(images, filename);
    if k >= 0 {
      var r := RemoveFirst(images, filename);
      assert r == images[..k] + images[k + 1..];
      forall i | 0 <= i < |r|
        ensures r[i] == images[if i < k then i else i + 1]
      {
      }
    }
  }

  /** With distinct file names, the search finds the one image with the name. */
  lemma FindDistinct(images: seq<Image>, i: nat)
    requires i < |images| && DistinctNames(images)
    ensures FindIndex(images, images[i].filename) == i
  {
    var k := FindIndex(images, images[i].filename);
    assert k != -1 by {
      assert images[i].filename == images[i].filename;
    }
  }

  /** The cards of a prefix with one image cut out are the prefix's cards with that card cut
      out. */
  lemma CardsWithout(images: seq<Image>, shown: nat, i: nat)
    requires i < shown <= |images|
    ensures Cards(images[..i] + images[i + 1..shown])
            == Cards(images[..shown])[..i] + Cards(images[..shown])[i + 1..]
  {
    CardsAppend(images[..i], images[i + 1..shown]);
    assert Cards(images[..shown])[..i] == Cards(images[..i]);
    assert Cards(images[..shown])[i + 1..] == Cards(images[i + 1..shown]);
  }

  lemma PrefixWithout<T>(s: seq<T>, shown: nat, i: nat)
    requires i < shown <= |s|
    ensures (s[..i] + s[i + 1..])[..shown - 1] == s[..i] + s[i + 1..shown]
  {
    var t := (s[..i] + s[i + 1..])[..shown - 1];
    var u := s[..i] + s[i + 1..shown];
    forall k | 0 <= k < shown - 1
      ensures t[k] == u[k]
    {
      if k < i {
        assert t[k] == s[k] == u[k];
      } else {
        assert t[k] == s[k + 1] == u[k];
      }
    }
  }

  /** With distinct file names, removing a shown card's image from the list removes exactly that
      card from the shown prefix. */
  lemma RemoveShownImage(images: seq<Image>, shown: nat, i: nat)
    requires shown <= |images| && i < shown && DistinctNames(images)
    ensures FindIndex(images, images[i].filename) == i
    ensures Cards(RemoveFirst(images, images[i].filename)[..shown - 1])
            == Cards(images[..shown])[..i] + Cards(images[..shown])[i + 1..]
  {
    FindDistinct(images, i);
    var r := RemoveFirst(images, images[i].filename);
    assert r == images[..i] + images[i + 1..];
    PrefixWithout(images, shown, i);
    CardsWithout(images, shown, i);
  }

  /** The Load More button: hidden, or shown with the number of images not yet displayed. */
  datatype LoadMore = Hidden | Shown(remaining: nat)

  /** The file names of the images are pairwise distinct. */
  predicate DistinctNames(images: seq<Image>) {
    forall i, j :: 0 <= i < j < |images| ==> images[i].filename != images[j].filename
  }

  /** The gallery script's module state. */
  class Gallery {
    var allImages: seq<Image>
    var loadedCount: int
    var isAdmin: bool
    /** The cards in the gallery grid, top to bottom. */
    var grid: seq<Card>
    /** The card whose delete button opened the confirmation, by its position in the grid. */
    var pendingItem: Option<nat>
    var pendingFilename: Option<string>

    /** The count stays within the list, and a pending delete refers to a card of the grid
        and carries that card's file name. */
    predicate Valid()
      reads this
    {
      && 0 <= loadedCount <= |allImages|
      && (pendingItem.None? <==> pendingFilename.None?)
      && (pendingItem.Some? ==>
            pendingItem.value < |grid| && pendingFilename.value == grid[pendingItem.value].filename)
    }

    /** The grid shows exactly the first `loadedCount` images, in order. */
    predicate ShowsLoaded()
      reads this
      requires Valid()
    {
      grid == Cards(allImages[..loadedCount])
    }

    /** `initGallery`: takes the images and shows the first batch. */
    constructor InitGallery(images: seq<Image>, adminFlag: bool)
      ensures Valid() && ShowsLoaded()
      ensures allImages == images && isAdmin == adminFlag
      ensures loadedCount == Min(BatchSize, |images|)
      ensures pendingItem == None && pendingFilename == None
    {
      allImages := images;
      isAdmin := adminFlag;
      loadedCount := 0;
      grid := [];
      pendingItem := None;
      pendingFilename := None;
      new;
      LoadNextBatch();
    }

    /** `updateLoadMoreButton`: hidden exactly when every image is shown. */
    function LoadMoreButton(): (b: LoadMore)
      reads this
      requires Valid()
      ensures b == Hidden <==> loadedCount >= |allImages|
      ensures b.Shown? ==> b.remaining > 0 && loadedCount + b.remaining == |allImages|
    {
      if loadedCount >= |allImages| then Hidden else Shown(|allImages| - loadedCount)
    }

    /** `addImageToGallery`: a card at the end of the grid, or at the top when prepending. */
    method AddImageToGallery(filename: string, title: JsValue, description: JsValue, prepend: bool)
      modifies this
      ensures var card := CardOf(filename, title, description);
              grid == if prepend then [card] + old(grid) else old(grid) + [card]
      ensures pendingItem == if prepend && old(pendingItem).Some? then Some(old(pendingItem).value + 1)
                             else old(pendingItem)
      ensures allImages == old(allImages) && loadedCount == old(loadedCount)
      ensures isAdmin == old(isAdmin) && pendingFilename == old(pendingFilename)
      ensures old(Valid()) ==> Valid()
    {
      var card := CardOf(filename, title, description);
      if prepend {
        grid := [card] + grid;
        if pendingItem.Some? {
          pendingItem := Some(pendingItem.value + 1);
        }
      } else {
        grid := grid + [card];
      }
    }

    /** `loadNextBatch`: shows the next (at most fifteen) images after the loaded ones. */
    method LoadNextBatch()
      modifies this
      requires Valid()
      ensures Valid()
      ensures allImages == old(allImages) && isAdmin == old(isAdmin)
      ensures loadedCount == old(loadedCount) + Min(BatchSize, |allImages| - old(loadedCount))
      ensures grid == old(grid) + Cards(allImages[old(loadedCount)..loadedCount])
      ensures old(ShowsLoaded()) ==> ShowsLoaded()
      ensures old(LoadMoreButton()).Shown? ==> loadedCount > old(loadedCount)
      ensures pendingItem == old(pendingItem) && pendingFilename == old(pendingFilename)
    {
      var batch := allImages[loadedCount..Min(loadedCount + BatchSize, |allImages|)];
      for i := 0 to |batch|
        invariant grid == old(grid) + Cards(batch[..i])
        invariant allImages == old(allImages) && loadedCount == old(loadedCount)
        invariant isAdmin == old(isAdmin)
        invariant pendingItem == old(pendingItem) && pendingFilename == old(pendingFilename)
        invariant Valid()
      {
        AddImageToGallery(batch[i].filename, batch[i].title, batch[i].description, false);
        CardsSnoc(batch, i);
      }
      assert batch[..|batch|] == batch;
      loadedCount := loadedCount + |batch|;
      ExtendShown(allImages, old(loadedCount), loadedCount);
    }

    /** `saveImage` on the card at `item`, with `titleText` and `descriptionText` the edited
        texts and `saved` whether the server accepted them. An accepted save makes the card
        record the trimmed texts (as the ones `cancelEdit` restores and the lightbox receives;
        the editable elements keep the text as typed) and nothing else changes: `allImages`
        keeps the old title and description, so from then on the card and its image
        disagree. */
    method SaveImage(item: nat, titleText: string, descriptionText: string, saved: bool)
      modifies this
      requires Valid() && item < |grid|
      ensures Valid()
      ensures !saved ==> grid == old(grid)
      ensures saved ==> grid == old(grid)[item := Card(old(grid)[item].filename,
                                                     Trim(titleText, JavaScript),
                                                     Trim(descriptionText, JavaScript))]
      ensures allImages == old(allImages) && loadedCount == old(loadedCount)
      ensures pendingItem == old(pendingItem) && pendingFilename == old(pendingFilename)
      ensures isAdmin == old(isAdmin)
      ensures old(ShowsLoaded()) ==>
                |grid| == loadedCount
                && forall k :: 0 <= k < |grid| ==> grid[k].filename == allImages[k].filename
    {
      if saved {
        var title := Trim(titleText, JavaScript);
        var description := Trim(descriptionText, JavaScript);
        grid := grid[item := Card(grid[item].filename, title, description)];
      }
    }

    /** `deleteImage`: the delete button of the card at `item` opens the confirmation. */
    method DeleteImage(item: nat)
      modifies this
      requires Valid() && item < |grid|
      ensures Valid()
      ensures pendingItem == Some(item) && pendingFilename == Some(grid[item].filename)
      ensures grid == old(grid) && allImages == old(allImages) && loadedCount == old(loadedCount)
      ensures isAdmin == old(isAdmin)
    {
      pendingItem := Some(item);
      pendingFilename := Some(grid[item].filename);
    }

    /** `closeConfirmModal`: forgets the pending delete. */
    method CloseConfirmModal()
      modifies this
      requires Valid()
      ensures Valid()
      ensures pendingItem == None && pendingFilename == None
      ensures grid == old(grid) && allImages == old(allImages) && loadedCount == old(loadedCount)
      ensures isAdmin == old(isAdmin)
    {
      pendingItem := None;
      pendingFilename := None;
    }

    /** `confirmDelete`, with `deleted` the outcome of the delete request. On success the card is
        removed from the grid and the first image with the file name from the list; when there
        was one, the count drops by one but not below zero. */
    method ConfirmDelete(deleted: bool)
      modifies this
      requires Valid()
      ensures Valid()
      ensures pendingItem == None && pendingFilename == None
      ensures isAdmin == old(isAdmin)
      ensures old(pendingFilename) == None || old(pendingFilename) == Some("") || !deleted ==>
                grid == old(grid) && allImages == old(allImages) && loadedCount == old(loadedCount)
      ensures old(pendingFilename).Some? && old(pendingFilename) != Some("") && deleted ==>
                var item := old(pendingItem).value;
                var f := old(pendingFilename).value;
                && grid == old(grid[..item] + grid[item + 1..])
                && allImages == RemoveFirst(old(allImages), f)
                && loadedCount == if FindIndex(old(allImages), f) == -1 then old(loadedCount)
                                  else Max(0, old(loadedCount) - 1)
      ensures old(ShowsLoaded()) && old(DistinctNames(allImages)) ==> ShowsLoaded()
    {
      var item := pendingItem;
      var filename := pendingFilename;
      CloseConfirmModal();
      if filename.None? || filename.value == [] {
        return;
      }
      if deleted {
        var i := item.value;
        grid := grid[..i] + grid[i + 1..];
        var k := FindIndex(allImages, filename.value);
        if k != -1 {
          allImages := allImages[..k] + allImages[k + 1..];
          loadedCount := Max(0, loadedCount - 1);
        }
        if old(ShowsLoaded()) && old(DistinctNames(allImages)) {
          RemoveShownImage(old(allImages), old(loadedCount), i);
        }
      }
    }

    /** `uploadFile`, with `mimeType` the file's type and `uploaded` the file name the server
        answered with, None when the upload failed. A successful upload puts the image first
        in the list, counts it as loaded and shows its card at the top. */
    method UploadFile(mimeType: string, uploaded: Option<string>)
      modifies this
      requires Valid()
      ensures Valid()
      ensures !StartsWith(mimeType, "image/") || uploaded.None? ==>
                allImages == old(allImages) && loadedCount == old(loadedCount) && grid == old(grid)
      ensures StartsWith(mimeType, "image/") && uploaded.Some? ==>
                var f := uploaded.value;
                && allImages == [Image(f, Str(f), Str(""))] + old(allImages)
                && loadedCount == old(loadedCount) + 1
                && grid == [Card(f, f, "")] + old(grid)
      ensures old(ShowsLoaded()) ==> ShowsLoaded()
      ensures pendingItem == if StartsWith(mimeType, "image/") && uploaded.Some? && old(pendingItem).Some?
                             then Some(old(pendingItem).value + 1) else old(pendingItem)
      ensures pendingFilename == old(pendingFilename) && isAdmin == old(isAdmin)
    {
      if !StartsWith(mimeType, "image/") {
        return;
      }
      if uploaded.Some? {
        var f := uploaded.value;
        allImages := [Image(f, Str(f), Str(""))] + allImages;
        loadedCount := loadedCount + 1;
        assert Valid();
        AddImageToGallery(f, Str(f), Str(""), true);
        PrependShown(old(allImages), old(loadedCount), Image(f, Str(f), Str("")));
      }
    }
  }
}
