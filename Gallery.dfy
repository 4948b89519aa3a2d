/**
 * The `ImageContainer` component: its six state hooks as the fields of a
 * class and each event handler as a method that performs the handler's
 * updates as one step.
 */
module Gallery {

  import opened Wrappers
  import opened Images
  import opened Splices

  /** Two clicks on images less than this many milliseconds apart count as a double click. */
  const TimeThreshold: int := 300

  class ImageContainer {
    /** The uploaded images in grid order. */
    var images: seq<Image>
    /** The selection snapshot whose length the header shows. */
    var selectedImages: seq<Image>
    /** When `HandleImageSelect` last ran, in milliseconds. */
    var lastClickTime: int
    /** Whether the per-image checkboxes are rendered. */
    var showCheckbox: bool
    /** Where the current drag started, if one did. */
    var draggedIndex: Option<nat>
    /** The image the current drag was last over, if any. */
    var overIndex: Option<nat>

    /**
     * What every reachable state satisfies: the count in the header is the
     * number of selected images, and checkboxes are shown while any image
     * is selected.
     */
    ghost predicate Valid()
      reads this
    {
      && |selectedImages| == |Selected(images)|
      && (Selected(images) != [] ==> showCheckbox)
    }

    /** The initial values of the six `useState` hooks. */
    constructor ()
      ensures Valid()
      ensures images == [] && selectedImages == [] && lastClickTime == 0
      ensures !showCheckbox && draggedIndex == None && overIndex == None
    {
      images := [];
      selectedImages := [];
      lastClickTime := 0;
      showCheckbox := false;
      draggedIndex := None;
      overIndex := None;
    }

    /**
     * The upload control changed. `loaded` is the data URL the file reader
     * delivered for the chosen file, or `None` when no file was chosen; the
     * new image is appended, unselected.
     */
    method HandleImageChange(loaded: Option<Src>)
      requires Valid()
      modifies this`images
      ensures Valid()
      ensures loaded.None? ==> images == old(images)
      ensures loaded.Some? ==> images == old(images) + [Image(loaded.value, false)]
      ensures loaded.Some? ==> Selected(images) == Selected(old(images))
    {
      if loaded.Some? {
        AppendKeepsSelection(images, loaded.value);
        images := images + [Image(loaded.value, false)];
      }
    }

    /**
     * A click, double click or checkbox change on the image at `index`, at
     * time `clickTime`. A click soon after the previous one deselects the
     * image; any other click flips its flag and shows the checkboxes.
     */
    method HandleImageSelect(index: nat, clickTime: int)
      requires Valid()
      requires index < |images|
      modifies this`images, this`selectedImages, this`lastClickTime, this`showCheckbox
      ensures Valid()
      ensures clickTime - old(lastClickTime) < TimeThreshold ==>
        images == SetSelected(old(images), index, false) && showCheckbox == old(showCheckbox)
      ensures clickTime - old(lastClickTime) >= TimeThreshold ==>
        images == SetSelected(old(images), index, !old(images)[index].selected) && showCheckbox
      ensures lastClickTime == clickTime
      ensures selectedImages == Selected(images)
      ensures |selectedImages| == |Selected(old(images))|
        - (if old(images)[index].selected then 1 else 0) + (if images[index].selected then 1 else 0)
    {
      if clickTime - lastClickTime < TimeThreshold {
        var updatedImages := images;
        updatedImages := updatedImages[index := updatedImages[index].(selected := false)];
        images := updatedImages;
      } else {
        var updatedImages := images;
        updatedImages := updatedImages[index := updatedImages[index].(selected := !updatedImages[index].selected)];
        images := updatedImages;
        showCheckbox := true;
      }
      lastClickTime := clickTime;
      // The write above went into the image object that the old array
      // shares with the copy, so the filter sees the new flag.
      selectedImages := Selected(images);
      SetSelectedCount(old(images), index, images[index].selected);
      if !showCheckbox {
        assert !old(images)[index].selected ==> images == old(images);
      }
    }

    /** A drag started on the image at `index`. */
    method HandleDragStart(index: nat)
      requires Valid()
      modifies this`draggedIndex
      ensures Valid()
      ensures draggedIndex == Some(index)
    {
      draggedIndex := Some(index);
    }

    /** A drag passed over the image at `index`. */
    method HandleDragOver(index: nat)
      requires Valid()
      modifies this`overIndex
      ensures Valid()
      ensures overIndex == Some(index)
    {
      overIndex := Some(index);
    }

    /**
     * The drop: the dragged image is taken out and reinserted at the index
     * it was last dragged over, and the drag is forgotten.
     */
    method HandleDrop()
      requires Valid()
      requires draggedIndex.Some? && draggedIndex.value < |images|
      requires overIndex.Some? && overIndex.value < |images|
      modifies this`images, this`draggedIndex, this`overIndex
      ensures Valid()
      ensures images == Move(old(images), old(draggedIndex).value, old(overIndex).value)
      ensures draggedIndex == None && overIndex == None
    {
      var from, to := draggedIndex.value, overIndex.value;
      var updatedImages := images;
      var draggedImage := updatedImages[from];
      updatedImages := Splice(updatedImages, from, 1, []);
      updatedImages := Splice(updatedImages, to, 0, [draggedImage]);
      ghost var was := images;
      images := updatedImages;
      draggedIndex := None;
      overIndex := None;
      assert images == Move(was, from, to);
      MoveKeepsSelectionCount(was, from, to);
    }

    /** Removes every selected image, empties the snapshot and hides the checkboxes. */
    method DeleteSelected()
      requires Valid()
      modifies this`images, this`selectedImages, this`showCheckbox
      ensures Valid()
      ensures images == Unselected(old(images))
      ensures Selected(images) == [] && selectedImages == [] && !showCheckbox
    {
      DeleteLeavesNoSelection(images);
      images := Unselected(images);
      selectedImages := [];
      showCheckbox := false;
    }

    /** Any key pressed anywhere in the document, whichever key it is, deletes the selected images. */
    method HandleDelete()
      requires Valid()
      modifies this`images, this`selectedImages, this`showCheckbox
      ensures Valid()
      ensures images == Unselected(old(images))
      ensures Selected(images) == [] && selectedImages == [] && !showCheckbox
    {
      DeleteSelected();
    }

    /** The "Delete files" button deletes the selected images. */
    method HandleDeleteButtonClick()
      requires Valid()
      modifies this`images, this`selectedImages, this`showCheckbox
      ensures Valid()
      ensures images == Unselected(old(images))
      ensures Selected(images) == [] && selectedImages == [] && !showCheckbox
    {
      DeleteSelected();
    }

    /**
     * The select-all checkbox, which is rendered only while the snapshot is
     * non-empty: every image becomes selected and the snapshot becomes the
     * image list as it was before the change.
     */
    method HandleCheckboxChange()
      requires Valid()
      requires |selectedImages| > 0
      modifies this`images, this`selectedImages
      ensures Valid()
      ensures images == SelectAll(old(images))
      ensures selectedImages == old(images)
    {
      SelectAllSelectsEverything(images);
      var updatedImages := SelectAll(images);
      selectedImages := images;
      images := updatedImages;
    }
  }

  /** A move keeps the images, so it keeps the selected ones, and their number. */
  lemma MoveKeepsSelectionCount(s: seq<Image>, from: nat, to: nat)
    requires from < |s| && to < |s|
    ensures multiset(Selected(Move(s, from, to))) == multiset(Selected(s))
    ensures |Selected(Move(s, from, to))| == |Selected(s)|
  {
    MovePermutes(s, from, to);
    WithSelectedPermutation(s, Move(s, from, to), true);
  }

  /**
   * A double click on an image: the browser reports a click at `t1`, a click
   * at `t2` and the double click together with the second click. Whatever the
   * gap between the clicks, the image ends up deselected whatever it was.
   */
  method DoubleClickDeselects(g: ImageContainer, index: nat, t1: int, t2: int)
    requires g.Valid() && index < |g.images|
    requires t1 <= t2
    modifies g
    ensures g.Valid()
    ensures Srcs(g.images) == Srcs(old(g.images))
    ensures !g.images[index].selected
  {
    g.HandleImageSelect(index, t1);
    g.HandleImageSelect(index, t2);
    g.HandleImageSelect(index, t2);
  }
}
