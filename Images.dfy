/**
 * The gallery's items and the pure array operations the handlers build
 * their new state from: the filter on the `selected` flag (used for the
 * selection snapshot and for deletion) and the map that selects every item.
 */
module Images {

  /** The data URL the browser's file reader produced; the gallery never looks inside it. */
  type Src = string

  /** One uploaded image and whether it is currently selected. */
  datatype Image = Image(src: Src, selected: bool)

  /**
   * The images of `s` whose `selected` flag equals `flag`, in their order in `s`:
   * `s.filter(image => image.selected === flag)`.
   */
  function WithSelected(s: seq<Image>, flag: bool): (r: seq<Image>)
    ensures |r| <= |s|
    ensures forall k :: 0 <= k < |r| ==> r[k].selected == flag
  {
    if s == [] then []
    else (if s[0].selected == flag then [s[0]] else []) + WithSelected(s[1..], flag)
  }

  /** The selection snapshot: `images.filter((image) => image.selected)`. */
  function Selected(s: seq<Image>): (r: seq<Image>)
  {
    WithSelected(s, true)
  }

  /** What deletion keeps: `images.filter((image) => !image.selected)`. */
  function Unselected(s: seq<Image>): (r: seq<Image>)
  {
    WithSelected(s, false)
  }

  /** `images.map((image) => ({ ...image, selected: true }))`. */
  function SelectAll(s: seq<Image>): (r: seq<Image>)
    ensures |r| == |s|
    ensures forall k :: 0 <= k < |s| ==> r[k] == Image(s[k].src, true)
  {
    seq(|s|, k requires 0 <= k < |s| => s[k].(selected := true))
  }

  /** The sources of `s`, in display order. */
  function Srcs(s: seq<Image>): (r: seq<Src>)
    ensures |r| == |s|
    ensures forall k :: 0 <= k < |s| ==> r[k] == s[k].src
  {
    seq(|s|, k requires 0 <= k < |s| => s[k].src)
  }

  /** `s` with the flag of its `i`th image set to `flag` and nothing else changed. */
  function SetSelected(s: seq<Image>, i: nat, flag: bool): (r: seq<Image>)
    requires i < |s|
    ensures |r| == |s| && r[i] == Image(s[i].src, flag)
    ensures forall k :: 0 <= k < |s| && k != i ==> r[k] == s[k]
  {
    s[i := s[i].(selected := flag)]
  }

  /** Filtering distributes over concatenation: it keeps the relative order of what it keeps. */
  lemma {:induction false} WithSelectedConcat(a: seq<Image>, b: seq<Image>, flag: bool)
    ensures WithSelected(a + b, flag) == WithSelected(a, flag) + WithSelected(b, flag)
  {
    if a == [] {
      assert a + b == b;
    } else {
      assert (a + b)[1..] == a[1..] + b;
      WithSelectedConcat(a[1..], b, flag);
    }
  }

  /** The filter keeps every image carrying `flag` as often as `s` holds it, and no other. */
  lemma {:induction false} WithSelectedCount(s: seq<Image>, flag: bool, x: Image)
    ensures multiset(WithSelected(s, flag))[x] == if x.selected == flag then multiset(s)[x] else 0
  {
    if s != [] {
      WithSelectedCount(s[1..], flag, x);
      var head := if s[0].selected == flag then [s[0]] else [];
      assert WithSelected(s, flag) == head + WithSelected(s[1..], flag);
      assert multiset(WithSelected(s, flag)) == multiset(head) + multiset(WithSelected(s[1..], flag));
      assert s == [s[0]] + s[1..];
      assert multiset(s) == multiset{s[0]} + multiset(s[1..]);
    }
  }

  /** The filter depends only on the multiset of its input. */
  lemma WithSelectedPermutation(a: seq<Image>, b: seq<Image>, flag: bool)
    requires multiset(a) == multiset(b)
    ensures multiset(WithSelected(a, flag)) == multiset(WithSelected(b, flag))
    ensures |WithSelected(a, flag)| == |WithSelected(b, flag)|
  {
    forall x ensures multiset(WithSelected(a, flag))[x] == multiset(WithSelected(b, flag))[x] {
      WithSelectedCount(a, flag, x);
      WithSelectedCount(b, flag, x);
    }
    assert multiset(WithSelected(a, flag)) == multiset(WithSelected(b, flag));
    assert |multiset(WithSelected(a, flag))| == |WithSelected(a, flag)|;
    assert |multiset(WithSelected(b, flag))| == |WithSelected(b, flag)|;
  }

  /** The selected and the unselected images of `s` split it: together they are all of `s`. */
  lemma {:induction false} SelectedPartition(s: seq<Image>)
    ensures |Selected(s)| + |Unselected(s)| == |s|
    ensures multiset(Selected(s)) + multiset(Unselected(s)) == multiset(s)
  {
    if s != [] {
      SelectedPartition(s[1..]);
      assert s == [s[0]] + s[1..];
    }
  }

  /** The filter changes nothing when every image already carries `flag`. */
  lemma {:induction false} WithSelectedKeepsAll(s: seq<Image>, flag: bool)
    requires forall k :: 0 <= k < |s| ==> s[k].selected == flag
    ensures WithSelected(s, flag) == s
  {
    if s != [] {
      var tail := s[1..];
      assert forall k :: 0 <= k < |tail| ==> tail[k] == s[k + 1];
      WithSelectedKeepsAll(tail, flag);
      assert s == [s[0]] + tail;
    }
  }

  /** The filter changes nothing exactly when every image already carries `flag`. */
  lemma WithSelectedIdentity(s: seq<Image>, flag: bool)
    ensures WithSelected(s, flag) == s <==> forall k :: 0 <= k < |s| ==> s[k].selected == flag
  {
    if forall k :: 0 <= k < |s| ==> s[k].selected == flag {
      WithSelectedKeepsAll(s, flag);
    }
  }

  /** After a deletion no selected image is left, and deleting again changes nothing. */
  lemma DeleteLeavesNoSelection(s: seq<Image>)
    ensures forall k :: 0 <= k < |Unselected(s)| ==> !Unselected(s)[k].selected
    ensures Selected(Unselected(s)) == []
    ensures Unselected(Unselected(s)) == Unselected(s)
  {
    WithSelectedIdentity(Unselected(s), false);
    SelectedPartition(Unselected(s));
  }

  /** Deletion keeps exactly the unselected images: none is lost, none is added. */
  lemma DeleteKeepsUnselected(s: seq<Image>)
    ensures forall k :: 0 <= k < |s| && !s[k].selected ==> s[k] in Unselected(s)
    ensures forall x :: x in Unselected(s) ==> x in s && !x.selected
    ensures |Unselected(s)| == |s| - |Selected(s)|
  {
    SelectedPartition(s);
    forall x | x in Unselected(s) || x in s
      ensures x in Unselected(s) <==> x in s && !x.selected
    {
      WithSelectedCount(s, false, x);
    }
  }

  /** After select-all every image is selected, in the same order; the snapshot is the whole list. */
  lemma SelectAllSelectsEverything(s: seq<Image>)
    ensures Srcs(SelectAll(s)) == Srcs(s)
    ensures Selected(SelectAll(s)) == SelectAll(s)
    ensures |Selected(SelectAll(s))| == |s|
    ensures Unselected(SelectAll(s)) == []
  {
    WithSelectedIdentity(SelectAll(s), true);
    SelectedPartition(SelectAll(s));
  }

  /** Changing one image's flag changes the number of selected images by at most one, as the flags say. */
  lemma SetSelectedCount(s: seq<Image>, i: nat, flag: bool)
    requires i < |s|
    ensures |Selected(SetSelected(s, i, flag))|
         == |Selected(s)| - (if s[i].selected then 1 else 0) + (if flag then 1 else 0)
  {
    var r := SetSelected(s, i, flag);
    assert s == s[..i] + [s[i]] + s[i + 1..];
    assert r == s[..i] + [r[i]] + s[i + 1..];
    WithSelectedConcat(s[..i] + [s[i]], s[i + 1..], true);
    WithSelectedConcat(s[..i], [s[i]], true);
    WithSelectedConcat(s[..i] + [r[i]], s[i + 1..], true);
    WithSelectedConcat(s[..i], [r[i]], true);
  }

  /** Appending an unselected image leaves the selection snapshot as it was. */
  lemma AppendKeepsSelection(s: seq<Image>, src: Src)
    ensures Selected(s + [Image(src, false)]) == Selected(s)
    ensures Unselected(s + [Image(src, false)]) == Unselected(s) + [Image(src, false)]
  {
    WithSelectedConcat(s, [Image(src, false)], true);
    WithSelectedConcat(s, [Image(src, false)], false);
  }
}
