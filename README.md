# Gallery, sign-in and category-radio logic of a laser-engraving website

This project models, in Dafny, the few pieces of a small React website that
carry logic of their own:

- **The photo gallery** (`src/pages/Gallery.jsx`). It builds DOM elements by
  hand: one checkbox and label per storage folder, and one photo container per
  image. The container holds an img and a hidden remove button. `checkAll`
  filters the photos by the checked boxes. `removePhoto` deletes a file and
  then drops its container from the page. `handleUpload` writes the chosen
  file to `category + file.name` and resets the form.
- **The sign-in page** (`src/pages/SignIn.jsx`). Email/password and Google
  sign-in navigate to `/admin` on success and alert on failure. The
  password-reset handler checks the typed address against
  `^[^\s@]+@[^\s@]+\.[^\s@]+$` before it asks the backend for a reset email.
- **The category radio** (`src/components/ui/CategoryInput.jsx`). A radio is
  checked exactly when the shared category equals its value. A change event
  writes the category only when its target is checked.

Modules:

- `GalleryDom` (gallery_dom.dfy) holds the DOM as values. A `Checkbox` is (id,
  name, class, checked). An `Element` is (class set, display). A `Photo` is a
  container, its img and its remove control. The module also holds the
  functions that specify `checkAll` and the continuation of `removePhoto`,
  and the lemmas about them.
- `Gallery` (gallery_page.dfy) is the class `Page`. Its fields are the
  gallery's DOM and state: checkboxes, labels, photo containers, the
  `category` and `file` React state, and the file input. It also keeps logs of
  the uploads, deletes and alerts issued. Each handler is a method.
  `CheckAll` keeps the source's loops: one to compute `showAll`, then either
  one loop over the photos or the nested per-checkbox loop. It is proved to
  leave each photo equal to `CheckAllPhoto` of the old one.
- `EmailPattern` (email_pattern.dfy) reads the regular expression two ways.
  `PatternLanguage` is the language read straight off the pattern. `Test`
  splits the text at the first `@`. The two are proved equal.
- `SignIn` (sign_in.dfy) has the three handlers as methods that return the
  trace of their effects. The effects are: prevent default, backend call,
  navigate, alert, prompt.
- `CategoryInput` (category_input.dfy) has the checked rule, the
  change-handler step and the class `CategoryState` that owns the shared
  category.
- `Wrappers` (wrappers.dfy) has `Option`, which stands for a JavaScript value
  that may be null or undefined.

The backend's own behaviour is not modelled. Uploads and deletes are logged
as requests in `Gallery.Page`. The sign-in calls and the reset email are
entries in the handlers' traces. The way each promise settles is a
parameter: `deleted: bool` or `Outcome`. The storage listing and
download-URL calls of `GeneratePhotos` have no request or log in the model
(see "Left out").

Where the documented behaviour and the code disagree, the model follows the
code:

- **Category filter.** The category string built at
  src/pages/Gallery.jsx:18 and the per-category loop at lines 164-176 show the
  intent: show a photo when its category's box is checked, or all photos when
  none is. But
  `CreateNewPhoto` never uses its category argument; every img gets the
  single class `photo`. With at least one box checked, `checkAll` therefore
  selects nothing a photo carries, and no photo changes (`FolderFilterIsInert`;
  on the page, the last `ensures` of `Gallery.Page.CheckAll`).
  The Findings section below records this.
- **Deleting a photo.** `removePhoto` (src/pages/Gallery.jsx:90-105) removes
  the container only after the delete succeeds. But the remove button's click
  handler (lines 57-60) also removes its own container at once, whatever the
  delete's outcome (`ClickRemove`). `removePhoto`'s
  selector match runs afterwards. The page's own calls to `CreateNewPhoto`
  pass no third argument, so the path handed to `removePhoto` is `undefined`.
  The selector then looks for `img[src="undefined"]`.
- **Uploading with no file.** `handleUpload` alerts and then throws on
  `file.name`, because there is no `return`. The model records that as
  `threw`: no upload is issued and the category is not reset.

## Model

| member | source | states |
|---|---|---|
| `Gallery.Page.constructor` | src/pages/Gallery.jsx:180-182 | the page starts with no checkboxes or photos, category `'/images/'` and no file |
| `GalleryDom.NewCheckbox` | src/pages/Gallery.jsx:136-140 | the checkbox CreateInput makes has id = name = the category, class `input`, and starts unchecked |
| `GalleryDom.NewLabel` | src/pages/Gallery.jsx:145-147 | its label points at that id; its text is a space, the category, then space, vertical bar, space |
| `Gallery.Page.CreateInput` | src/pages/Gallery.jsx:135-149 | exactly one checkbox and then its label are appended; nothing else changes |
| `GalleryDom.NewPhoto` | src/pages/Gallery.jsx:39-74 | a new container has classes `photo-container` / `photo` / `remove-container`, src = url, and its remove control starts hidden |
| `Gallery.Page.CreateNewPhoto` | src/pages/Gallery.jsx:38-87 | exactly one container is appended, and it does not depend on the category argument |
| `Gallery.Page.MouseOver` | src/pages/Gallery.jsx:77-79 | on mouseover that photo's remove control becomes `block`; nothing else changes |
| `Gallery.Page.MouseLeave` | src/pages/Gallery.jsx:82-84 | on mouseleave it becomes `none` again |
| `GalleryDom.ApplyBoxes` | src/pages/Gallery.jsx:165-176 | the per-checkbox loop never changes an element's classes, and leaves its display as it was, `flex` or `none` |
| `GalleryDom.CheckAllPhoto` | src/pages/Gallery.jsx:151-178 | checkAll changes only display values: src, alt, path and every class set are kept |
| `GalleryDom.CheckAllPhotoParts` | src/pages/Gallery.jsx:151-178 | checkAll treats a container, its img and its remove control independently, each by the element rule |
| `Gallery.Page.CheckAll` | src/pages/Gallery.jsx:151-178 | after the loops every photo equals `CheckAllPhoto` of the old photo under the current checkboxes; when a box is checked and no box is named like a fixed class, the photos are exactly as before; checkboxes (and their checked states), labels and form state are unchanged |
| `GalleryDom.CheckAllShowsEveryPhoto` | src/pages/Gallery.jsx:154-163 | with no box checked, every element of class `photo` ends `flex` and every other element is untouched |
| `GalleryDom.ApplyBoxesLastWins` | src/pages/Gallery.jsx:165-176 | for an element in several checkboxes' classes, the last such checkbox in order decides: `flex` if it is checked, `none` if not |
| `GalleryDom.ApplyBoxesUnmatched` | src/pages/Gallery.jsx:165-176 | an element carrying no checkbox name as a class comes out of the loop unchanged |
| `GalleryDom.CheckAllFollowsLastCheckbox` | src/pages/Gallery.jsx:164-176 | with some box checked, an element whose last matching checkbox is i ends `flex` if i is checked and `none` otherwise |
| `GalleryDom.CheckAllKeepsUnmatched` | src/pages/Gallery.jsx:164-176 | with some box checked, elements carrying no checkbox name keep their display |
| `GalleryDom.FolderFilterIsInert` | src/pages/Gallery.jsx:40-47 | since classes are fixed, checking folder boxes leaves every built photo exactly as it was (unless a folder is named like a fixed class) |
| `GalleryDom.UncheckedFolderStillShown` | src/pages/Gallery.jsx:164-176 | with `firearms` checked and `thermos` unchecked, a new photo is still not hidden |
| `GalleryDom.TaggedPhoto` | src/pages/Gallery.jsx:18-26 | the corrected container's img carries its folder name and `photo` as classes |
| `GalleryDom.TaggedFilterFollowsCheckbox` | src/pages/Gallery.jsx:164-176 | with tagged imgs and some box checked, a photo of folder f is `flex` when f's box is checked and `none` when it is not |
| `Gallery.Page.ClickCheckbox` | src/pages/Gallery.jsx:141-143 | a click flips that checkbox only, then the photos are as checkAll leaves them, unchanged when a box is checked and no box is named like a fixed class |
| `GalleryDom.JsText` | src/pages/Gallery.jsx:95 | a template literal renders an undefined path as `"undefined"` and a string as itself |
| `GalleryDom.FirstWithSrc` | src/pages/Gallery.jsx:95 | the selector finds the first container in document order whose img src equals the path, or reports that none has it |
| `GalleryDom.Without` | src/pages/Gallery.jsx:97 | removing a container keeps every other container, in order |
| `GalleryDom.AfterDeleteRemovesOnlyMatch` | src/pages/Gallery.jsx:90-104 | a container goes only when the delete succeeded and an img with that src exists; then the first such container goes, and otherwise the gallery is unchanged |
| `Gallery.Page.RemovePhoto` | src/pages/Gallery.jsx:90-105 | one delete is issued for the path, and the gallery becomes `AfterDelete` of the old one |
| `Gallery.Page.ClickRemove` | src/pages/Gallery.jsx:57-60 | the button issues the delete, removes its own container whatever the outcome, and then the selector continuation runs |
| `Gallery.RadioValuesExclusive` | src/pages/Gallery.jsx:245-280 | at most one of the four upload-form radios is checked |
| `Gallery.Page.HandleChange` | src/pages/Gallery.jsx:183-185 | the upload form's radio change sets the category to the radio's value |
| `Gallery.Page.ChooseFile` | src/pages/Gallery.jsx:288 | choosing a file sets the file state and the file input |
| `Gallery.Page.HandleUpload` | src/pages/Gallery.jsx:186-208 | with a file: exactly one upload to `category ++ file.name`, the file input is cleared and the category resets to `'/images/'`; with none: one alert, then the handler throws, so there is no upload and no reset |
| `CategoryInput.AfterChange` | src/components/ui/CategoryInput.jsx:2-8 | a checked target's value becomes the category, so that radio is checked; an unchecked target leaves the category unchanged |
| `CategoryInput.AtMostOneChecked` | src/components/ui/CategoryInput.jsx:17 | among radios with distinct values sharing one category, at most one is checked |
| `CategoryInput.ChangeChecksOnlyTarget` | src/components/ui/CategoryInput.jsx:2-17 | after a handled change, the changed radio is the only checked one in its group |
| `CategoryInput.UncheckedChangeKeepsSelection` | src/components/ui/CategoryInput.jsx:3 | a change whose target is not checked changes no radio's checked state |
| `CategoryInput.CategoryState.HandleChange` | src/components/ui/CategoryInput.jsx:2-8 | the shared category becomes the target's value when it is checked, and is unchanged otherwise |
| `EmailPattern.TestIsPattern` | src/pages/SignIn.jsx:76-77 | the check accepts a text exactly when it is in the language of `^[^\s@]+@[^\s@]+\.[^\s@]+$` (both directions) |
| `EmailPattern.AcceptedHasOneAtNoSpace` | src/pages/SignIn.jsx:76 | every accepted address has exactly one `@` and no white space |
| `EmailPattern.AcceptedIffParts` | src/pages/SignIn.jsx:76 | for a text with one `@` and no white space: it is accepted exactly when the part before `@` is non-empty and the part after has a `.` that is neither first nor last |
| `EmailPattern.CancelledPromptRejected` | src/pages/SignIn.jsx:75-79 | a cancelled prompt (null, tested as `"null"`) is rejected |
| `EmailPattern.Examples` | src/pages/SignIn.jsx:76 | `a@b.c` is accepted; `a@b`, `@b.c`, `a@.c`, `a@b.` and `a @b.c` are rejected |
| `SignIn.PromptText` | src/pages/SignIn.jsx:75-77 | the tested text is the typed answer, or `"null"` when the prompt was cancelled |
| `SignIn.UserSignIn` | src/pages/SignIn.jsx:25-35 | the trace is exactly: prevent default, one password sign-in call, then a navigation to `/admin` on success or the alert `'Invalid Email or Password'` on failure; so success navigates once and failure never navigates |
| `SignIn.UserSignInGoogle` | src/pages/SignIn.jsx:41-52 | the trace is exactly: one popup sign-in call, then a navigation to `/admin` on success or the alert `'Invalid Email or Not Authenticated'` on failure |
| `SignIn.HandlePasswordReset` | src/pages/SignIn.jsx:74-88 | a reset email is requested exactly when the text matches the pattern; then the trace is exactly prompt, one reset request for the typed text, and the alert reporting the backend's outcome; otherwise it is the prompt and the format alert only; the handler never navigates |

## Left out

- Listing folders and files and rendering them as the listing calls settle
  (`GeneratePhotos`, src/pages/Gallery.jsx:13-36): the order depends on when
  asynchronous responses arrive. Its `listAll` and `getDownloadURL` calls are
  not recorded anywhere in the model. `CreateInput` and `CreateNewPhoto` are
  modelled as the operations that listing calls.
- The observers passed to `uploadTask.on` (src/pages/Gallery.jsx:196-205):
  the second argument logs each progress snapshot. The third is the error
  observer, which asks for a download URL when the upload fails. Both are
  callbacks from the storage library. The upload itself is modelled as one
  logged request.
- The storage and authentication backends. Each call is a logged request or
  trace entry, and its result (`deleted`, `Outcome`) is a parameter. Path
  normalisation of storage references is not modelled either: the upload
  path is the plain concatenation `category + file.name`.
- `onAuthStateChanged` logging and `userSignOut`: the first only logs, and
  the second is a library call whose source is not part of this model.
  Console logging is left out everywhere, including
  src/components/ui/CategoryInput.jsx:5-6.
- The email and password fields' change handlers: `UserSignIn` takes the
  current field values as parameters.
- `Gallery.Page.CheckAll`: the checkboxes are not themselves display targets.
  In the page, a folder named `input` would make `checkAll` toggle the
  checkboxes too, and a folder named like a class of the page's static markup
  would toggle that markup. The static JSX markup is not modelled.
- `Gallery.Page.CheckAll`: a checkbox name is treated as one class name. The
  browser splits a name containing white space into several classes that must
  all be present.
- `Gallery.Page.RemovePhoto`: the path is compared literally with each img's
  src. CSS escaping is not modelled: a path containing `"` or `\` would
  change or break the `img[src="…"]` selector.
- `Gallery.Page.ClickRemove`: `removePhoto`'s continuation is modelled as
  running right after the click. In the page, other events can run before the
  delete settles.
- React's batching of state updates: `setCategory` takes effect at once.
- Inline styles, button text and styling, and the text nodes of labels are not
  modelled; a label's text is kept as one string.
- src/pages/AboutMe.jsx is static markup.
- The commented-out `pageToken` code (src/pages/Gallery.jsx:108-133) is not
  modelled.

## Findings

| source | as written | input that shows it | evidently intended | confidence | as-written member | corrected member |
|---|---|---|---|---|---|---|
| src/pages/Gallery.jsx:47 | `CreateNewPhoto` sets the img's class to `photo` and never reads its `category` argument, which line 18 builds as `folder + ' w-1/6 h-1/6 photo'` | boxes `firearms` (checked) and `thermos` (unchecked): after `checkAll`, a thermos photo is still shown | the img takes the category's class list, so a checked folder's photos show and an unchecked folder's photos hide | high; not executed | `GalleryDom.UncheckedFolderStillShown` | `GalleryDom.TaggedFilterFollowsCheckbox` |

The page model (`Gallery.Page.CreateNewPhoto`) keeps the builder as written.
The filter rule `CheckAllPhoto` is stated for any class sets, so it applies
unchanged to photos built by `TaggedPhoto`.
