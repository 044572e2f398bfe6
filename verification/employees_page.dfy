/** The employee administration page (frontend/src/pages/Employees.tsx):
    the list filter, the photo picker of the form, and the submit rule.
    Picked files are represented by their names.
 */
module EmployeesPage {

  import opened Wrappers
  import opened Text
  import opened EmployeesHook

  /** `x?.toLowerCase().includes(term)`: false for an absent field. */
  predicate FieldMatches(field: Option<string>, term: string) {
    field.Some? && Contains(Lower(field.value), Lower(term))
  }

  /** The test inside `filteredEmployees`: the lower-cased search term
      occurs in the name, area or position; the area filter is "all" or
      equal; the status filter is "all" or agrees with `activo` (any other
      status value hides everyone). */
  predicate Shown(e: Employee, term: string, areaFilter: string, statusFilter: string) {
    && (Contains(Lower(e.name), Lower(term)) || FieldMatches(e.area, term) || FieldMatches(e.position, term))
    && (areaFilter == "all" || e.area == Some(areaFilter))
    && (statusFilter == "all" || (statusFilter == "active" && e.active) || (statusFilter == "inactive" && !e.active))
  }

  function ShownBy(term: string, areaFilter: string, statusFilter: string): (p: Employee -> bool)
    ensures forall e :: p(e) <==> Shown(e, term, areaFilter, statusFilter)
  {
    (e: Employee) => Shown(e, term, areaFilter, statusFilter)
  }

  /** `filteredEmployees`. */
  function FilterEmployees(list: seq<Employee>, term: string, areaFilter: string, statusFilter: string)
    : (r: seq<Employee>)
    ensures forall e :: e in r <==> e in list && Shown(e, term, areaFilter, statusFilter)
    ensures |r| <= |list|
  {
    Keep(list, ShownBy(term, areaFilter, statusFilter))
  }

  /** With no search term and both filters at "all", everyone is listed,
      in order. */
  lemma {:induction false} DefaultFiltersShowAll(list: seq<Employee>)
    ensures FilterEmployees(list, "", "all", "all") == list
  {
    forall i | 0 <= i < |list|
      ensures Shown(list[i], "", "all", "all")
    {
      ContainsEmpty(Lower(list[i].name));
    }
    KeepAll(list, ShownBy("", "all", "all"));
  }

  /** The filter works element by element, so it keeps the list's order. */
  lemma {:induction false} FilterSplits(a: seq<Employee>, b: seq<Employee>, term: string, areaFilter: string, statusFilter: string)
    ensures FilterEmployees(a + b, term, areaFilter, statusFilter) ==
            FilterEmployees(a, term, areaFilter, statusFilter) + FilterEmployees(b, term, areaFilter, statusFilter)
  {
    KeepAppend(a, b, ShownBy(term, areaFilter, statusFilter));
  }

  const MaxImages: nat := 10
  const MinImagesToCreate: nat := 3

  /** `[...prev.images, ...files].slice(0, 10)`. */
  function AddImages(images: seq<string>, files: seq<string>): (r: seq<string>)
    ensures |r| <= MaxImages && |r| <= |images + files|
    ensures r == (images + files)[..|r|]
    ensures |images + files| <= MaxImages ==> r == images + files
    ensures |images| <= MaxImages ==> |images| <= |r| && r[..|images|] == images
    ensures |images + files| > MaxImages ==> |r| == MaxImages
  {
    var all := images + files;
    assert all[..|images|] == images;
    if |all| <= MaxImages then all
    else
      var r := all[..MaxImages];
      assert |images| <= MaxImages ==> r[..|images|] == all[..|images|];
      r
  }

  /** `prev.images.filter((_, i) => i !== index)`. */
  function RemoveImage(images: seq<string>, index: int): (r: seq<string>)
    ensures 0 <= index < |images| ==> r == images[..index] + images[index + 1..]
    ensures !(0 <= index < |images|) ==> r == images
    decreases |images|
  {
    if |images| == 0 then []
    else if index == 0 then images[1..]
    else
      var rest := RemoveImage(images[1..], index - 1);
      assert 1 <= index < |images| ==>
               [images[0]] + rest == images[..index] + images[index + 1..] by {
        if 1 <= index < |images| {
          assert images[1..][..index - 1] == images[1..index];
          assert images[1..][index..] == images[index + 1..];
          assert images[..index] == [images[0]] + images[1..index];
        }
      }
      assert !(0 <= index < |images|) ==> [images[0]] + rest == images;
      [images[0]] + rest
  }

  /** The submit button: creating (no truthy employee id being edited)
      needs at least three photos. */
  function SubmitDisabled(editingId: Option<string>, imageCount: nat): (disabled: bool)
    ensures disabled <==> (editingId.None? || editingId.value == "") && imageCount < MinImagesToCreate
  {
    !(editingId.Some? && editingId.value != "") && imageCount < MinImagesToCreate
  }

  /** The button blocks exactly the submissions that would create an
      employee with fewer than three photos. */
  lemma {:induction false} SubmitDisabledBlocksShortCreations(editingId: Option<string>, images: seq<string>)
    ensures SubmitDisabled(editingId, |images|) <==>
              Submit(editingId, images).Create? && |Submit(editingId, images).photos| < MinImagesToCreate
  {
  }

  /** The request `handleSubmit` sends. */
  datatype Submission =
    | Update(id: string, images: Option<seq<string>>)
    | Create(photos: seq<string>)

  /** An update sends photos only when some were picked; a creation always
      sends the list. */
  function Submit(editingId: Option<string>, images: seq<string>): (s: Submission)
    ensures editingId.Some? && editingId.value != "" ==>
              s.Update? && s.id == editingId.value && (s.images.None? <==> |images| == 0)
    ensures s.Update? && s.images.Some? ==> s.images.value == images
    ensures !(editingId.Some? && editingId.value != "") ==> s == Create(images)
  {
    if editingId.Some? && editingId.value != "" then
      Update(editingId.value, if |images| > 0 then Some(images) else None)
    else Create(images)
  }

  /** A creation that the button lets through carries three to ten photos,
      as long as they were picked through the picker. */
  lemma {:induction false} CreationCarriesEnoughImages(picked: seq<string>, files: seq<string>)
    requires |picked| <= MaxImages
    requires !SubmitDisabled(None, |AddImages(picked, files)|)
    ensures var s := Submit(None, AddImages(picked, files));
            s.Create? && MinImagesToCreate <= |s.photos| <= MaxImages
  {
  }
}
