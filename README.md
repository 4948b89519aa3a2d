# Responsive image gallery: the `ImageContainer` state machine

This project models the one piece of logic in the gallery widget: the
`ImageContainer` React component. The component keeps six pieces of state
(`images`, `selectedImages`, `lastClickTime`, `showCheckbox`, `draggedIndex`
and `overIndex`). Its event handlers upload, select, reorder and delete images.

- `Images.dfy` (module `Images`) holds an image (`src` is the data URL, kept
  opaque, plus the `selected` flag). It also holds the pure array operations
  the handlers build their new state from: the filter on `selected`
  (`WithSelected`, `Selected`, `Unselected`) and the select-all map
  (`SelectAll`). Lemmas about them cover order, counts, permutations and
  idempotence.
- `Splices.dfy` (module `Splices`) gives JavaScript's `splice` as the contents
  it leaves behind. It also defines `Move`, the remove-then-insert the drop
  handler builds from two splices, with lemmas: it is a permutation, it puts
  the dragged image at the target, it keeps the others in order, and dropping
  onto the same index changes nothing.
- `Gallery.dfy` (module `Gallery`) is the class `ImageContainer`. Its six
  fields are the six hooks, and each handler is a method that does the
  handler's updates as one atomic step. `Valid()` is the invariant every
  reachable state keeps: the count in the header (`selectedImages.length`) is
  the number of selected images, and checkboxes are shown while any image is
  selected.
- `Wrappers.dfy` holds `Option`, which stands for the nullable drag indices.

The click time and the file reader's result are parameters of the handlers.
JavaScript `null` is `None`.

In `handleImageSelect`, the write to the copied array's element changes the
object that the old `images` array shares. So the filter at line 63 sees the
new flag, and the model sets `selectedImages` from the updated images. Select-all
builds fresh objects, so its snapshot is the images as they were before. Both
are value copies in the model, and nothing is lost by that.

The code does the following, a reader may not expect it, and the model does
the same:
- Every keydown anywhere in the document deletes the selected images, whatever
  the key.
- A drop needs both indices to be set. The code does not check them, so the
  model makes this a precondition.
- The double-click branch (a click less than 300 ms after the previous one)
  leaves `showCheckbox` as it was.
- Nothing resets `showCheckbox` when the last image is deselected by hand.

## Model

| member | source | states |
|---|---|---|
| `Gallery.ImageContainer.constructor` | src/Components/ImageContainer.jsx:5-10 | The initial state: no images, an empty snapshot, last click at 0, checkboxes hidden, no drag; the invariant holds. |
| `Gallery.ImageContainer.HandleImageChange` | src/Components/ImageContainer.jsx:31-41 | With a loaded file, exactly one unselected image with that source is appended after the unchanged earlier images. The selection is unchanged. With no file, nothing changes. |
| `Gallery.ImageContainer.HandleImageSelect` | src/Components/ImageContainer.jsx:44-65 | Less than 300 ms after the last click, the image is deselected whatever it was and `showCheckbox` is kept. Otherwise only its flag flips and checkboxes are shown. Either way no other image changes, `lastClickTime` is the click time, the snapshot is the updated selected images, and the count moves by the flag change of that one image. |
| `Gallery.ImageContainer.HandleDragStart` | src/Components/ImageContainer.jsx:68-71 | Only `draggedIndex` changes, to the given index. |
| `Gallery.ImageContainer.HandleDragOver` | src/Components/ImageContainer.jsx:74-77 | Only `overIndex` changes, to the given index. |
| `Gallery.ImageContainer.HandleDrop` | src/Components/ImageContainer.jsx:80-89 | With both indices set and in range, the images become `Move` of the old images from `draggedIndex` to `overIndex`: a permutation with the dragged image at the target and the others in order (see the `Splices` lemmas). Both indices are reset and the invariant holds. |
| `Gallery.ImageContainer.DeleteSelected` | src/Components/ImageContainer.jsx:15-18 | The images become the unselected ones, no selected image is left, the snapshot is empty and checkboxes are hidden. |
| `Gallery.ImageContainer.HandleDelete` | src/Components/ImageContainer.jsx:14-22 | Any key pressed deletes the selected images as above. |
| `Gallery.ImageContainer.HandleDeleteButtonClick` | src/Components/ImageContainer.jsx:92-97 | The delete button deletes the selected images as above. |
| `Gallery.ImageContainer.HandleCheckboxChange` | src/Components/ImageContainer.jsx:100-107 | Reached only with a non-empty snapshot. Every image becomes selected with its source and position kept, the snapshot becomes the images from before the call, and the invariant holds. |
| `Gallery.DoubleClickDeselects` | src/Components/ImageContainer.jsx:152-153 | A double click reports two clicks and then a double click together with the second click. Whatever the gap between the two clicks and whatever the image was before, it ends up deselected and the sources are unchanged. |
| `Gallery.MoveKeepsSelectionCount` | src/Components/ImageContainer.jsx:80-86 | A drop keeps the selected images as a multiset, and so their number: the header count stays right. |
| `Images.WithSelected` | src/Components/ImageContainer.jsx:63 | The filter returns only images with the wanted flag and is never longer than its input. |
| `Images.SelectAll` | src/Components/ImageContainer.jsx:101-104 | Same length. Each image keeps its source at its position and is selected. |
| `Images.SetSelected` | src/Components/ImageContainer.jsx:50-56 | The written image has the new flag and its source. Every other image is unchanged. |
| `Images.WithSelectedConcat` | src/Components/ImageContainer.jsx:15 | Filtering a concatenation is concatenating the filtered parts, so the filter keeps relative order. |
| `Images.WithSelectedCount` | src/Components/ImageContainer.jsx:63 | The filter keeps each image with the flag exactly as often as the input holds it, and no image without the flag. |
| `Images.WithSelectedPermutation` | src/Components/ImageContainer.jsx:63 | Inputs with the same multiset of images have filtered results with the same multiset and the same length. |
| `Images.SelectedPartition` | src/Components/ImageContainer.jsx:93 | Selected and unselected images together are all of the input, in number and as a multiset. |
| `Images.WithSelectedKeepsAll` | src/Components/ImageContainer.jsx:15 | When every image already has the flag, the filter returns its input unchanged. |
| `Images.WithSelectedIdentity` | src/Components/ImageContainer.jsx:15 | The filter returns its input unchanged if and only if every image already has the flag. |
| `Images.DeleteLeavesNoSelection` | src/Components/ImageContainer.jsx:93-95 | After a deletion no image is selected and the snapshot of what is left is empty. A second deletion changes nothing. |
| `Images.DeleteKeepsUnselected` | src/Components/ImageContainer.jsx:93 | Deletion keeps every unselected image and only unselected images of the input. It removes exactly as many images as are selected. |
| `Images.SelectAllSelectsEverything` | src/Components/ImageContainer.jsx:100-106 | After select-all the sources are in the same order, the snapshot of the result is all of it and as long as the input, and a delete would leave nothing. |
| `Images.SetSelectedCount` | src/Components/ImageContainer.jsx:48-64 | Writing one image's flag changes the number of selected images by exactly the change in that flag. |
| `Images.AppendKeepsSelection` | src/Components/ImageContainer.jsx:37 | Appending an unselected image leaves the selected images as they were and adds it at the end of the unselected ones. |
| `Splices.Splice` | src/Components/ImageContainer.jsx:83-84 | `splice(start, deleteCount, ...items)` with the start inside the array, index by index: before `start` the old element, then the items, then each old element after the removed ones shifted by the number removed less the number inserted; at most `deleteCount` are removed and never more than there are. |
| `Splices.MovePermutes` | src/Components/ImageContainer.jsx:81-84 | A drop keeps the length and the multiset of images. |
| `Splices.MovePlaces` | src/Components/ImageContainer.jsx:82-84 | The dragged image lands at the target index. |
| `Splices.MoveKeepsOthers` | src/Components/ImageContainer.jsx:83-84 | Removing the dropped image from the result leaves exactly the source with the dragged image removed, so every other image keeps its relative order. |
| `Splices.MoveAt` | src/Components/ImageContainer.jsx:81-84 | For each index of the result: the target holds the dragged image, images outside the span between the two indices stay put, and those inside shift by one towards the vacated place. |
| `Splices.MoveSameIndex` | src/Components/ImageContainer.jsx:81-84 | Dropping an image onto its own index leaves the order unchanged. |
| `Splices.MoveFirstToThird` | src/Components/ImageContainer.jsx:81-84 | Dragging index 0 to index 2 on `[a, b, c, d]` gives `[b, c, a, d]`: a move, not a swap. |

## Left out

- Rendering (JSX, Tailwind classes, the larger first grid cell, conditional checkboxes and buttons) is presentation. The only part used is that the select-all checkbox exists only while the snapshot is non-empty (line 117), which is `HandleCheckboxChange`'s precondition.
- Reading the file (`FileReader`, `readAsDataURL`) is asynchronous browser I/O. `HandleImageChange` takes its result, or `None` when no file was chosen. A read that fails never calls `onload` in the code, so it leaves the state unchanged and needs no model.
- `new Date().getTime()` is the `clickTime` parameter. Times are unbounded integers, which are exact for millisecond timestamps.
- Adding and removing the document keydown listener in `useEffect`, `preventDefault`, and `dataTransfer.effectAllowed` are browser event plumbing.
- React's batched, asynchronous `setState` and stale closures are not modelled. Each handler is one atomic step on the current state.
- HandleDrop: the code does not guard a drop with a null or out-of-range index (`splice(null, …)` treats null as 0 and inserts `undefined`). The model requires both indices to be set and in range.
- HandleImageSelect: an out-of-range index throws in the code (its callers are the rendered images, so it cannot happen). The model requires the index to be in range.
- Sharing of image objects between arrays is not modelled as aliasing. Images are values, which gives the same states, for the reason given above.
- `src/App.jsx` only places a heading around the component and has no logic.
