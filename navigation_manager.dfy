/** The viewer's navigation state: the list of image paths of the open
    folder and the index of the image on screen. */
module Navigation {
  import opened Common

  /** The index set_images keeps: the requested one, clamped to the last
      valid index, or 0 for an empty list. */
  function Clamp(len: nat, initial: nat): (i: nat)
    ensures len > 0 ==> i < len
    ensures initial < len ==> i == initial
    ensures len > 0 && initial >= len ==> i == len - 1
    ensures len == 0 ==> i == 0
  {
    Min(initial, SaturatingSub(len, 1))
  }

  /** What previous does at index: the new index and whether it moved. */
  function StepPrevious(index: nat): (r: (nat, bool))
    ensures r.1 <==> index > 0
    ensures r.1 ==> r.0 + 1 == index
    ensures !r.1 ==> r.0 == index
  {
    if index > 0 then (index - 1, true) else (index, false)
  }

  /** What next does at index in a list of len paths. */
  function StepNext(len: nat, index: nat): (r: (nat, bool))
    ensures r.1 <==> index + 1 < len
    ensures r.1 ==> r.0 == index + 1
    ensures !r.1 ==> r.0 == index
  {
    if index + 1 < len then (index + 1, true) else (index, false)
  }

  /** The navigation invariant: a valid index, or 0 for an empty list. */
  predicate InRange(len: nat, index: nat) {
    index < len || (len == 0 && index == 0)
  }

  /** Both steps keep the index in range. */
  lemma StepsKeepInRange(len: nat, index: nat)
    requires InRange(len, index)
    ensures InRange(len, StepPrevious(index).0)
    ensures InRange(len, StepNext(len, index).0)
  {
  }

  /** A successful next followed by previous restores the index. */
  lemma NextThenPrevious(len: nat, index: nat)
    requires StepNext(len, index).1
    ensures StepPrevious(StepNext(len, index).0) == (index, true)
  {
  }

  /** A successful previous followed by next restores an in-range index. */
  lemma PreviousThenNext(len: nat, index: nat)
    requires index < len && StepPrevious(index).1
    ensures StepNext(len, StepPrevious(index).0) == (index, true)
  {
  }

  /** The index after n presses of next. */
  function Advance(len: nat, index: nat, n: nat): nat
    decreases n
  {
    if n == 0 then index else Advance(len, StepNext(len, index).0, n - 1)
  }

  /** Pressing next n times from an in-range index moves n places, but
      stops at the last image. */
  lemma {:induction false} AdvanceStopsAtLast(len: nat, index: nat, n: nat)
    requires InRange(len, index)
    ensures Advance(len, index, n) == Min(index + n, SaturatingSub(len, 1))
    decreases n
  {
    if n > 0 {
      var s := StepNext(len, index);
      StepsKeepInRange(len, index);
      AdvanceStopsAtLast(len, s.0, n - 1);
    }
  }

  class NavigationManager<P> {
    var imagePaths: seq<P>
    var currentIndex: nat

    ghost predicate Valid()
      reads this
    {
      InRange(|imagePaths|, currentIndex)
    }

    /** NavigationManager::new: no images, index 0. */
    constructor ()
      ensures Valid()
      ensures imagePaths == [] && currentIndex == 0
    {
      imagePaths := [];
      currentIndex := 0;
    }

    /** set_images: take the new list and clamp the initial index. */
    method SetImages(paths: seq<P>, initial: nat)
      modifies this
      ensures Valid()
      ensures imagePaths == paths && currentIndex == Clamp(|paths|, initial)
    {
      imagePaths := paths;
      currentIndex := Min(initial, SaturatingSub(|imagePaths|, 1));
    }

    /** previous: step back unless at the first image. */
    method Previous() returns (moved: bool)
      modifies this
      ensures old(Valid()) ==> Valid()
      ensures (currentIndex, moved) == StepPrevious(old(currentIndex))
      ensures moved == old(CanGoPrevious())
      ensures imagePaths == old(imagePaths)
    {
      if currentIndex > 0 {
        currentIndex := currentIndex - 1;
        moved := true;
      } else {
        moved := false;
      }
    }

    /** next: step forward unless at the last image. */
    method Next() returns (moved: bool)
      modifies this
      ensures old(Valid()) ==> Valid()
      ensures (currentIndex, moved) == StepNext(|imagePaths|, old(currentIndex))
      ensures moved == old(CanGoNext())
      ensures imagePaths == old(imagePaths)
    {
      if currentIndex + 1 < |imagePaths| {
        currentIndex := currentIndex + 1;
        moved := true;
      } else {
        moved := false;
      }
    }

    /** can_go_previous: what previous would return. */
    function CanGoPrevious(): (b: bool)
      reads this
      ensures b == StepPrevious(currentIndex).1
    {
      currentIndex > 0
    }

    /** can_go_next: what next would return. */
    function CanGoNext(): (b: bool)
      reads this
      ensures b == StepNext(|imagePaths|, currentIndex).1
    {
      currentIndex + 1 < |imagePaths|
    }

    /** current_index. */
    function CurrentIndex(): (i: nat)
      reads this
      ensures Valid() && imagePaths != [] ==> i < |imagePaths|
    {
      currentIndex
    }

    /** current_path: the path at the index, when the index is valid. */
    function CurrentPath(): (r: Option<P>)
      reads this
      ensures r.Some? <==> currentIndex < |imagePaths|
      ensures r.Some? ==> r.value == imagePaths[currentIndex]
      ensures imagePaths == [] ==> r == None
      ensures Valid() && imagePaths != [] ==> r.Some?
    {
      if currentIndex < |imagePaths| then Some(imagePaths[currentIndex]) else None
    }

    /** image_paths. */
    function ImagePaths(): (s: seq<P>)
      reads this
      ensures |s| == TotalImages()
    {
      imagePaths
    }

    /** total_images. */
    function TotalImages(): (n: nat)
      reads this
      ensures n == 0 <==> IsEmpty()
    {
      |imagePaths|
    }

    /** is_empty. */
    function IsEmpty(): (b: bool)
      reads this
      ensures b ==> CurrentPath() == None && !CanGoNext()
      ensures Valid() ==> (b <==> CurrentPath() == None)
      ensures Valid() && b ==> !CanGoPrevious()
    {
      |imagePaths| == 0
    }

    /** clear: no images, index 0. */
    method Clear()
      modifies this
      ensures Valid()
      ensures imagePaths == [] && currentIndex == 0
    {
      imagePaths := [];
      currentIndex := 0;
    }
  }

  /** A successful next followed by previous restores the index and
      leaves the list alone. */
  method NextThenPreviousRestores<P>(nav: NavigationManager<P>)
    requires nav.Valid() && nav.CanGoNext()
    modifies nav
    ensures nav.currentIndex == old(nav.currentIndex) && nav.imagePaths == old(nav.imagePaths)
    ensures nav.Valid()
  {
    var movedForward := nav.Next();
    var movedBack := nav.Previous();
    assert movedForward && movedBack;
  }
}
