/**
 * The gallery page of src/pages/Gallery.jsx as one object: the DOM it edits
 * by hand (checkboxes, labels, photo containers), the React state of its
 * upload form (category and file), the file input's value, and the requests
 * and alerts it issues. Backend calls are recorded, their outcomes are
 * parameters.
 */
module Gallery {
  import opened Wrappers
  import opened GalleryDom
  import CategoryInput

  /** A file chosen in the upload form; only its name is read. */
  datatype File = File(name: string)

  /** A write issued to the storage backend: destination path and file. */
  datatype Upload = Upload(path: string, file: File)

  const DefaultCategory := "/images/"
  const ChooseImageAlert := "Please choose an image"

  /** The values of the four category radios of the upload form, in page order. */
  const RadioValues: seq<string> :=
    ["/images/", "/images/firearm_accessories/", "/images/firearms/", "/images/thermos/"]

  /** The upload form's radios never show two selections at once. */
  lemma RadioValuesExclusive(category: string, i: nat, j: nat)
    requires i < |RadioValues| && j < |RadioValues|
    requires CategoryInput.RadioChecked(category, RadioValues[i])
    requires CategoryInput.RadioChecked(category, RadioValues[j])
    ensures i == j
  {
    assert CategoryInput.Distinct(RadioValues);
    CategoryInput.AtMostOneChecked(RadioValues, category, i, j);
  }

  class Page {
    /** The checkboxes under #inputs, in document order. */
    var boxes: seq<Checkbox>
    /** The labels under #inputs; labels[i] follows boxes[i]. */
    var labels: seq<Label>
    /** The photo containers under #galleryID, in document order. */
    var photos: seq<Photo>
    /** React state: the destination folder of the next upload. */
    var category: string
    /** React state: the file chosen for upload. */
    var file: Option<File>
    /** What the file input (#file) shows. */
    var fileField: Option<File>
    /** Writes issued to the storage backend, oldest first. */
    var uploads: seq<Upload>
    /** Deletes issued to the storage backend; None is a reference built from an undefined path. */
    var deletes: seq<Option<string>>
    /** Blocking alerts shown, oldest first. */
    var alerts: seq<string>

    ghost predicate Valid()
      reads this
    {
      |labels| == |boxes| &&
      (forall i :: 0 <= i < |boxes| ==> boxes[i].className == InputClass && labels[i].htmlFor == boxes[i].id) &&
      (forall k :: 0 <= k < |photos| ==> Built(photos[k]))
    }

    /** The page as first rendered: empty #inputs and #galleryID, category '/images/', no file. */
    constructor ()
      ensures Valid()
      ensures boxes == [] && labels == [] && photos == []
      ensures category == DefaultCategory && file == None && fileField == None
      ensures uploads == [] && deletes == [] && alerts == []
    {
      boxes, labels, photos := [], [], [];
      category, file, fileField := DefaultCategory, None, None;
      uploads, deletes, alerts := [], [], [];
    }

    /** CreateInput: one checkbox for category c, followed by its label. */
    method CreateInput(c: string)
      requires Valid()
      modifies this
      ensures Valid()
      ensures boxes == old(boxes) + [NewCheckbox(c)]
      ensures labels == old(labels) + [NewLabel(c)]
      ensures photos == old(photos) && category == old(category) && file == old(file)
      ensures fileField == old(fileField) && uploads == old(uploads) && deletes == old(deletes)
      ensures alerts == old(alerts)
    {
      boxes := boxes + [NewCheckbox(c)];
      labels := labels + [NewLabel(c)];
    }

    /**
     * CreateNewPhoto: appends one container whatever `category` is; the
     * argument is accepted and never read.
     */
    method CreateNewPhoto(category: string, url: string, fullPath: Option<string>)
      requires Valid()
      modifies this
      ensures Valid()
      ensures photos == old(photos) + [NewPhoto(url, fullPath)]
      ensures boxes == old(boxes) && labels == old(labels) && this.category == old(this.category)
      ensures file == old(file) && fileField == old(fileField) && uploads == old(uploads)
      ensures deletes == old(deletes) && alerts == old(alerts)
    {
      photos := photos + [NewPhoto(url, fullPath)];
    }

    /** The container's mouseover handler: its remove control shows as a block. */
    method MouseOver(k: nat)
      requires Valid() && k < |photos|
      modifies this
      ensures Valid()
      ensures photos == old(photos)[k := old(photos)[k].(remove := old(photos)[k].remove.(display := Block))]
      ensures boxes == old(boxes) && labels == old(labels) && category == old(category)
      ensures file == old(file) && fileField == old(fileField) && uploads == old(uploads)
      ensures deletes == old(deletes) && alerts == old(alerts)
    {
      var p := photos[k];
      photos := photos[k := p.(remove := p.remove.(display := Block))];
    }

    /** The container's mouseleave handler: its remove control is hidden again. */
    method MouseLeave(k: nat)
      requires Valid() && k < |photos|
      modifies this
      ensures Valid()
      ensures photos == old(photos)[k := old(photos)[k].(remove := old(photos)[k].remove.(display := Hidden))]
      ensures boxes == old(boxes) && labels == old(labels) && category == old(category)
      ensures file == old(file) && fileField == old(fileField) && uploads == old(uploads)
      ensures deletes == old(deletes) && alerts == old(alerts)
    {
      var p := photos[k];
      photos := photos[k := p.(remove := p.remove.(display := Hidden))];
    }

    /**
     * checkAll. The checkboxes are the elements of class 'input' and the
     * photo elements those of class 'photo'. Each inner loop walks every
     * container and touches only the elements that carry the selector's
     * class, which is the walk over getElementsByClassName in document order.
     */
    method CheckAll()
      requires Valid()
      modifies this
      ensures Valid()
      ensures |photos| == |old(photos)|
      ensures forall k :: 0 <= k < |photos| ==> photos[k] == CheckAllPhoto(old(photos)[k], boxes)
      ensures AnyChecked(boxes) && NamesUnlikeFixedClasses(boxes) ==> photos == old(photos)
      ensures boxes == old(boxes) && labels == old(labels) && category == old(category)
      ensures file == old(file) && fileField == old(fileField) && uploads == old(uploads)
      ensures deletes == old(deletes) && alerts == old(alerts)
    {
      var showAll := true;
      var i := 0;
      while i < |boxes|
        invariant 0 <= i <= |boxes|
        invariant showAll <==> !AnyChecked(boxes[..i])
      {
        if boxes[i].checked {
          showAll := false;
        }
        i := i + 1;
      }
      assert boxes[..|boxes|] == boxes;
      var before := photos;
      var ps := photos;
      if showAll {
        var j := 0;
        while j < |ps|
          invariant 0 <= j <= |ps| == |before|
          invariant forall k :: 0 <= k < j ==> ps[k] == ShowAllPhoto(before[k])
          invariant forall k :: j <= k < |ps| ==> ps[k] == before[k]
        {
          ps := ps[j := ShowAllPhoto(ps[j])];
          j := j + 1;
        }
      } else {
        i := 0;
        while i < |boxes|
          invariant 0 <= i <= |boxes| && |ps| == |before|
          invariant forall k :: 0 <= k < |ps| ==> ps[k] == FilterPhoto(before[k], boxes[..i])
        {
          var j := 0;
          while j < |ps|
            invariant 0 <= j <= |ps| == |before| && i < |boxes|
            invariant forall k :: 0 <= k < j ==> ps[k] == FilterPhoto(before[k], boxes[..i + 1])
            invariant forall k :: j <= k < |ps| ==> ps[k] == FilterPhoto(before[k], boxes[..i])
          {
            assert ApplyBoxPhoto(ps[j], boxes[i]) == FilterPhoto(before[j], boxes[..i + 1]) by {
              FilterPhotoStep(before[j], boxes, i);
            }
            ps := ps[j := ApplyBoxPhoto(ps[j], boxes[i])];
            j := j + 1;
          }
          i := i + 1;
        }
      }
      photos := ps;
      if AnyChecked(boxes) && NamesUnlikeFixedClasses(boxes) {
        forall k | 0 <= k < |before|
          ensures photos[k] == before[k]
        {
          FolderFilterIsInert(before[k], boxes);
        }
      }
    }

    /** A click on checkbox i: the browser flips it, then its onclick runs checkAll. */
    method ClickCheckbox(i: nat)
      requires Valid() && i < |boxes|
      modifies this
      ensures Valid()
      ensures boxes == old(boxes)[i := old(boxes)[i].(checked := !old(boxes)[i].checked)]
      ensures |photos| == |old(photos)|
      ensures forall k :: 0 <= k < |photos| ==> photos[k] == CheckAllPhoto(old(photos)[k], boxes)
      ensures AnyChecked(boxes) && NamesUnlikeFixedClasses(boxes) ==> photos == old(photos)
      ensures labels == old(labels) && category == old(category)
      ensures file == old(file) && fileField == old(fileField) && uploads == old(uploads)
      ensures deletes == old(deletes) && alerts == old(alerts)
    {
      boxes := boxes[i := boxes[i].(checked := !boxes[i].checked)];
      CheckAll();
    }

    /**
     * removePhoto(fullPath) with the backend's answer `deleted`: a delete is
     * issued; after it succeeds, the container of the first img whose src is
     * the path goes, if there is one.
     */
    method RemovePhoto(fullPath: Option<string>, deleted: bool)
      requires Valid()
      modifies this
      ensures Valid()
      ensures deletes == old(deletes) + [fullPath]
      ensures photos == AfterDelete(old(photos), JsText(fullPath), deleted)
      ensures boxes == old(boxes) && labels == old(labels) && category == old(category)
      ensures file == old(file) && fileField == old(fileField) && uploads == old(uploads)
      ensures alerts == old(alerts)
    {
      deletes := deletes + [fullPath];
      if deleted {
        var found := FirstWithSrc(photos, JsText(fullPath));
        if found.Some? {
          photos := Without(photos, found.value);
        }
      }
    }

    /**
     * The remove button of container k: it starts removePhoto with the
     * container's fullPath and removes the container itself at once; the
     * continuation of removePhoto runs afterwards on what is left.
     */
    method ClickRemove(k: nat, deleted: bool)
      requires Valid() && k < |photos|
      modifies this
      ensures Valid()
      ensures deletes == old(deletes) + [old(photos)[k].fullPath]
      ensures photos == AfterDelete(Without(old(photos), k), JsText(old(photos)[k].fullPath), deleted)
      ensures boxes == old(boxes) && labels == old(labels) && category == old(category)
      ensures file == old(file) && fileField == old(fileField) && uploads == old(uploads)
      ensures alerts == old(alerts)
    {
      var fullPath := photos[k].fullPath;
      deletes := deletes + [fullPath];
      photos := Without(photos, k);
      if deleted {
        var found := FirstWithSrc(photos, JsText(fullPath));
        if found.Some? {
          photos := Without(photos, found.value);
        }
      }
    }

    /** The upload form's radio handler: setCategory(event.target.value). */
    method HandleChange(value: string)
      requires Valid()
      modifies this
      ensures Valid()
      ensures category == value
      ensures boxes == old(boxes) && labels == old(labels) && photos == old(photos)
      ensures file == old(file) && fileField == old(fileField) && uploads == old(uploads)
      ensures deletes == old(deletes) && alerts == old(alerts)
    {
      category := value;
    }

    /** The file input's onChange: the first chosen file, or none when the choice was cancelled. */
    method ChooseFile(f: Option<File>)
      requires Valid()
      modifies this
      ensures Valid()
      ensures file == f && fileField == f
      ensures boxes == old(boxes) && labels == old(labels) && photos == old(photos)
      ensures category == old(category) && uploads == old(uploads)
      ensures deletes == old(deletes) && alerts == old(alerts)
    {
      file := f;
      fileField := f;
    }

    /**
     * handleUpload. With no file it alerts and then fails reading file.name:
     * `threw` reports that TypeError, and nothing after it happens. With a
     * file it issues one write to category + file.name, clears the file input
     * and resets the category; the file state itself is kept.
     */
    method HandleUpload() returns (threw: bool)
      requires Valid()
      modifies this
      ensures Valid()
      ensures threw <==> old(file).None?
      ensures alerts == old(alerts) + (if threw then [ChooseImageAlert] else [])
      ensures threw ==> uploads == old(uploads) && category == old(category) && fileField == old(fileField)
      ensures !threw ==> uploads == old(uploads) + [Upload(old(category) + old(file).value.name, old(file).value)]
      ensures !threw ==> category == DefaultCategory && fileField == None
      ensures file == old(file) && boxes == old(boxes) && labels == old(labels) && photos == old(photos)
      ensures deletes == old(deletes)
    {
      if file.None? {
        alerts := alerts + [ChooseImageAlert];
        threw := true;
        return;
      }
      threw := false;
      var f := file.value;
      uploads := uploads + [Upload(category + f.name, f)];
      fileField := None;
      category := DefaultCategory;
    }
  }
}
