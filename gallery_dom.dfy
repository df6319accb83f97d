/**
 * The part of the browser DOM that src/pages/Gallery.jsx builds and edits by
 * hand, as values: the category checkboxes under #inputs and the photo
 * containers under #galleryID. The functions here say what checkAll and the
 * continuation of removePhoto leave behind; the class Gallery.Page runs them.
 */
module GalleryDom {
  import opened Wrappers

  /** The values of style.display the gallery writes; Unset is the empty inline style an element starts with. */
  datatype Display = Unset | Flex | Block | Hidden

  /** An element as class selectors and style.display see it. */
  datatype Element = Element(classes: set<string>, display: Display)

  /** A checkbox created by CreateInput. */
  datatype Checkbox = Checkbox(id: string, name: string, className: string, checked: bool)

  /** The label CreateInput appends right after its checkbox. */
  datatype Label = Label(htmlFor: string, text: string)

  /**
   * One photo container under #galleryID: the container div, its img (with
   * the img's src and alt), and the div around the remove button. fullPath
   * is the third argument of CreateNewPhoto, which the remove button hands
   * to removePhoto; None stands for a missing (undefined) argument.
   */
  datatype Photo = Photo(container: Element, img: Element, src: string, alt: string,
                         remove: Element, fullPath: Option<string>)

  const InputClass := "input"
  const PhotoClass := "photo"
  const ContainerClass := "photo-container"
  const RemoveClass := "remove-container"
  const MissingImageAlt := "Image not found"

  /** The checkbox CreateInput(c) appends: id and name are both c, class 'input', unchecked. */
  function NewCheckbox(c: string): (b: Checkbox)
    ensures b.id == c && b.name == c && b.className == InputClass && !b.checked
  {
    Checkbox(c, c, InputClass, false)
  }

  /** The label CreateInput(c) appends: it points at the checkbox and reads ' c | '. */
  function NewLabel(c: string): (l: Label)
    ensures l.htmlFor == c && l.text == [' '] + c + [' ', '|', ' ']
  {
    Label(c, " " + c + " | ")
  }

  /** The classes every container built by CreateNewPhoto carries, whatever its category argument. */
  predicate Built(p: Photo)
  {
    p.container.classes == {ContainerClass} && p.img.classes == {PhotoClass} &&
    p.remove.classes == {RemoveClass}
  }

  /**
   * The container CreateNewPhoto appends. It takes no category: the source
   * assigns fixed class names and never reads its category argument.
   */
  function NewPhoto(url: string, fullPath: Option<string>): (p: Photo)
    ensures Built(p) && p.src == url && p.fullPath == fullPath
    ensures p.remove.display == Hidden && p.img.display == Unset && p.container.display == Unset
  {
    Photo(Element({ContainerClass}, Unset), Element({PhotoClass}, Unset), url, MissingImageAlt,
          Element({RemoveClass}, Hidden), fullPath)
  }

  // ---------------------------------------------------------------------
  // checkAll
  // ---------------------------------------------------------------------

  /** Some checkbox is checked: the flag showAll of checkAll ends false. */
  predicate AnyChecked(boxes: seq<Checkbox>)
  {
    exists i :: 0 <= i < |boxes| && boxes[i].checked
  }

  /** The show-all branch on one element: every element of class 'photo' is set to flex. */
  function ShowAll(e: Element): Element
  {
    if PhotoClass in e.classes then e.(display := Flex) else e
  }

  /** One pass of the per-checkbox loop on one element: the elements of class b.name get flex or none. */
  function ApplyBox(e: Element, b: Checkbox): Element
  {
    if b.name in e.classes then e.(display := if b.checked then Flex else Hidden) else e
  }

  /** The per-checkbox loop run over `boxes` in order, on one element. */
  function ApplyBoxes(e: Element, boxes: seq<Checkbox>): (r: Element)
    ensures r.classes == e.classes
    ensures r.display == e.display || r.display == Flex || r.display == Hidden
    decreases |boxes|
  {
    if boxes == [] then e
    else ApplyBox(ApplyBoxes(e, boxes[..|boxes| - 1]), boxes[|boxes| - 1])
  }

  /** What checkAll leaves in one element. */
  function CheckAllElement(e: Element, boxes: seq<Checkbox>): Element
  {
    if AnyChecked(boxes) then ApplyBoxes(e, boxes) else ShowAll(e)
  }

  function ShowAllPhoto(p: Photo): Photo
  {
    p.(container := ShowAll(p.container), img := ShowAll(p.img), remove := ShowAll(p.remove))
  }

  function ApplyBoxPhoto(p: Photo, b: Checkbox): Photo
  {
    p.(container := ApplyBox(p.container, b), img := ApplyBox(p.img, b), remove := ApplyBox(p.remove, b))
  }

  function FilterPhoto(p: Photo, boxes: seq<Checkbox>): Photo
  {
    p.(container := ApplyBoxes(p.container, boxes), img := ApplyBoxes(p.img, boxes),
       remove := ApplyBoxes(p.remove, boxes))
  }

  /** What checkAll leaves in one photo container: only display values change. */
  function CheckAllPhoto(p: Photo, boxes: seq<Checkbox>): (r: Photo)
    ensures r.src == p.src && r.alt == p.alt && r.fullPath == p.fullPath
    ensures r.container.classes == p.container.classes && r.img.classes == p.img.classes
    ensures r.remove.classes == p.remove.classes
  {
    if AnyChecked(boxes) then FilterPhoto(p, boxes) else ShowAllPhoto(p)
  }

  /** The per-checkbox loop, extended by one checkbox. */
  lemma FilterPhotoStep(p: Photo, boxes: seq<Checkbox>, i: nat)
    requires i < |boxes|
    ensures FilterPhoto(p, boxes[..i + 1]) == ApplyBoxPhoto(FilterPhoto(p, boxes[..i]), boxes[i])
  {
    assert boxes[..i + 1][..i] == boxes[..i];
  }

  /** An element that carries no checkbox's name as a class comes out of the loop unchanged. */
  lemma {:induction false} ApplyBoxesUnmatched(e: Element, boxes: seq<Checkbox>)
    requires forall i :: 0 <= i < |boxes| ==> boxes[i].name !in e.classes
    ensures ApplyBoxes(e, boxes) == e
    decreases |boxes|
  {
    if boxes != [] {
      ApplyBoxesUnmatched(e, boxes[..|boxes| - 1]);
    }
  }

  /** For an element in the classes of several checkboxes, the last of them in order decides its display. */
  lemma {:induction false} ApplyBoxesLastWins(e: Element, boxes: seq<Checkbox>, i: nat)
    requires i < |boxes| && boxes[i].name in e.classes
    requires forall k :: i < k < |boxes| ==> boxes[k].name !in e.classes
    ensures ApplyBoxes(e, boxes) == e.(display := if boxes[i].checked then Flex else Hidden)
    decreases |boxes|
  {
    var n := |boxes| - 1;
    if i < n {
      ApplyBoxesLastWins(e, boxes[..n], i);
    } else {
      assert ApplyBoxes(e, boxes) == ApplyBox(ApplyBoxes(e, boxes[..n]), boxes[n]);
    }
  }

  /** With no checkbox checked, every element of class 'photo' ends flex and nothing else changes. */
  lemma CheckAllShowsEveryPhoto(e: Element, boxes: seq<Checkbox>)
    requires !AnyChecked(boxes)
    ensures PhotoClass in e.classes ==> CheckAllElement(e, boxes) == e.(display := Flex)
    ensures PhotoClass !in e.classes ==> CheckAllElement(e, boxes) == e
  {
  }

  /**
   * With some checkbox checked, an element carrying the name of checkbox i
   * as a class, and no later checkbox's name, ends flex when checkbox i is
   * checked and none otherwise.
   */
  lemma CheckAllFollowsLastCheckbox(e: Element, boxes: seq<Checkbox>, i: nat)
    requires AnyChecked(boxes)
    requires i < |boxes| && boxes[i].name in e.classes
    requires forall k :: i < k < |boxes| ==> boxes[k].name !in e.classes
    ensures CheckAllElement(e, boxes).display == (if boxes[i].checked then Flex else Hidden)
    ensures CheckAllElement(e, boxes).classes == e.classes
  {
    ApplyBoxesLastWins(e, boxes, i);
  }

  /** With some checkbox checked, an element carrying no checkbox's name keeps its display. */
  lemma CheckAllKeepsUnmatched(e: Element, boxes: seq<Checkbox>)
    requires AnyChecked(boxes)
    requires forall i :: 0 <= i < |boxes| ==> boxes[i].name !in e.classes
    ensures CheckAllElement(e, boxes) == e
  {
    ApplyBoxesUnmatched(e, boxes);
  }

  /** No checkbox is named like one of the classes CreateNewPhoto assigns. */
  predicate NamesUnlikeFixedClasses(boxes: seq<Checkbox>)
  {
    forall i :: 0 <= i < |boxes| ==>
      boxes[i].name != PhotoClass && boxes[i].name != ContainerClass && boxes[i].name != RemoveClass
  }

  /** checkAll treats the three elements of a container independently, each by CheckAllElement. */
  lemma CheckAllPhotoParts(p: Photo, boxes: seq<Checkbox>)
    ensures CheckAllPhoto(p, boxes).container == CheckAllElement(p.container, boxes)
    ensures CheckAllPhoto(p, boxes).img == CheckAllElement(p.img, boxes)
    ensures CheckAllPhoto(p, boxes).remove == CheckAllElement(p.remove, boxes)
  {
  }

  /**
   * The category filter never reaches a photo: unless a folder is named like
   * one of the three fixed classes, checking category boxes leaves every
   * container built by CreateNewPhoto exactly as it was.
   */
  lemma FolderFilterIsInert(p: Photo, boxes: seq<Checkbox>)
    requires Built(p) && AnyChecked(boxes) && NamesUnlikeFixedClasses(boxes)
    ensures CheckAllPhoto(p, boxes) == p
  {
    ApplyBoxesUnmatched(p.container, boxes);
    ApplyBoxesUnmatched(p.img, boxes);
    ApplyBoxesUnmatched(p.remove, boxes);
  }

  /**
   * The input that shows it: with 'firearms' checked and 'thermos' not, a
   * photo of the thermos folder stays visible.
   */
  lemma UncheckedFolderStillShown(url: string)
    ensures var boxes := [Checkbox("firearms", "firearms", InputClass, true),
                          Checkbox("thermos", "thermos", InputClass, false)];
            CheckAllPhoto(NewPhoto(url, None), boxes).img.display != Hidden
  {
    var boxes := [Checkbox("firearms", "firearms", InputClass, true),
                  Checkbox("thermos", "thermos", InputClass, false)];
    assert boxes[0].checked;
    FolderFilterIsInert(NewPhoto(url, None), boxes);
  }

  /**
   * The container CreateNewPhoto evidently meant to build: its img takes the
   * class list of its category argument, folder + ' w-1/6 h-1/6 photo'.
   */
  function TaggedPhoto(folder: string, url: string, fullPath: Option<string>): (p: Photo)
    ensures folder in p.img.classes && PhotoClass in p.img.classes && p.src == url
  {
    Photo(Element({ContainerClass}, Unset), Element({folder, "w-1/6", "h-1/6", PhotoClass}, Unset), url,
          MissingImageAlt, Element({RemoveClass}, Hidden), fullPath)
  }

  /**
   * With category tags on the img, filtering works as intended: when some
   * box is checked, a photo of folder boxes[i].name is shown exactly when
   * that box is checked (folder names distinct and unlike the fixed classes).
   */
  lemma TaggedFilterFollowsCheckbox(folder: string, url: string, fullPath: Option<string>,
                                    boxes: seq<Checkbox>, i: nat)
    requires AnyChecked(boxes) && i < |boxes| && boxes[i].name == folder
    requires forall k :: 0 <= k < |boxes| && k != i ==> boxes[k].name != folder
    requires forall k :: 0 <= k < |boxes| ==>
      boxes[k].name != PhotoClass && boxes[k].name != "w-1/6" && boxes[k].name != "h-1/6"
    ensures CheckAllPhoto(TaggedPhoto(folder, url, fullPath), boxes).img.display ==
            (if boxes[i].checked then Flex else Hidden)
  {
    var img := TaggedPhoto(folder, url, fullPath).img;
    ApplyBoxesLastWins(img, boxes, i);
  }

  // ---------------------------------------------------------------------
  // removePhoto
  // ---------------------------------------------------------------------

  /** The string a template literal makes of a possibly-undefined value. */
  function JsText(v: Option<string>): (s: string)
    ensures v.Some? ==> s == v.value
    ensures v.None? ==> s == "undefined"
  {
    match v
    case None => "undefined"
    case Some(s) => s
  }

  /** document.querySelector(`img[src="..."]`): the first container, in document order, whose img has that src. */
  function FirstWithSrc(ps: seq<Photo>, src: string): (r: Option<nat>)
    ensures r.Some? ==> r.value < |ps| && ps[r.value].src == src &&
                        forall k :: 0 <= k < r.value ==> ps[k].src != src
    ensures r.None? ==> forall k :: 0 <= k < |ps| ==> ps[k].src != src
  {
    if ps == [] then None
    else if ps[0].src == src then Some(0)
    else match FirstWithSrc(ps[1..], src)
      case None => None
      case Some(k) => Some(k + 1)
  }

  /** The photos with the one at index k taken out (its parent container removed). */
  function Without(ps: seq<Photo>, k: nat): (r: seq<Photo>)
    requires k < |ps|
    ensures |r| == |ps| - 1
    ensures forall j :: 0 <= j < k ==> r[j] == ps[j]
    ensures forall j :: k <= j < |r| ==> r[j] == ps[j + 1]
  {
    ps[..k] + ps[k + 1..]
  }

  /** The gallery after removePhoto's continuation, given whether the backend delete succeeded. */
  function AfterDelete(ps: seq<Photo>, src: string, deleted: bool): seq<Photo>
  {
    if !deleted then ps
    else match FirstWithSrc(ps, src)
      case None => ps
      case Some(k) => Without(ps, k)
  }

  /**
   * A container goes only when the delete succeeded and an img with that
   * src exists; then exactly the first such container goes. Otherwise the
   * gallery is unchanged.
   */
  lemma AfterDeleteRemovesOnlyMatch(ps: seq<Photo>, src: string, deleted: bool)
    ensures var r := AfterDelete(ps, src, deleted);
      (|r| < |ps| <==> deleted && exists k :: 0 <= k < |ps| && ps[k].src == src) &&
      (|r| >= |ps| ==> r == ps) &&
      (|r| < |ps| ==> exists k :: 0 <= k < |ps| && ps[k].src == src && r == Without(ps, k) &&
                               forall j :: 0 <= j < k ==> ps[j].src != src)
  {
  }
}
