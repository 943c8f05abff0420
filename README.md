# splinter's static-document driver, modelled in Dafny

splinter drives web browsers behind one API. `LxmlDriver` is its browser-less
driver: it parses the fetched HTML with lxml and answers queries against that
static tree. It also fills and submits forms by building request payloads itself,
and it leaves the actual HTTP transport (`_do_method`) to subclasses. This
project models:

- the driver's navigation-history cursor (`back`, `forward`, `reload`, `visit`);
- form submission: the method, the target url and `serialize`'s payload;
- the classification of query results into link, control and generic elements,
  with their `(find_by, query)` provenance;
- `find_by_value`'s fallback and `find_by_name`;
- `fill_form`'s value coercion and its missing-field policy, plus `check`/`uncheck`;
- the control element's `value`, `checked`, `fill`, `click` and
  `_get_parent_form`, with the per-driver form registry;
- the option element's `selected`;
- the polling text checks `is_text_present` and `is_text_not_present`.

Files:

- `values.dfy` (module `Values`): Python-level values and their truthiness, the
  exceptions (`ElementDoesNotExist`, `KeyError`, `StopIteration`,
  `AttributeError`, `IndexError`) as an `Error` datatype, and the string
  operations the code uses (`in`, `lower`, `strip`).
- `document.dfy` (module `Document`): the parsed document as the driver sees it.
  It covers elements, forms and their inputs, classification, the getters, the
  `fill_form` coercion table and the registry. It also defines the
  specification of `serialize` as functions: removing submit inputs
  (`Stripped`) and building the payload (`Payload`).
- `driver.dfy` (module `Driver`): the class `LxmlDriver`, whose methods update
  the driver's state, and the class `ControlElement` (LxmlControlElement).

State and interfaces:

- The driver's mutable state is the fields `url`, `lastUrls`, `index`, `forms`
  (the `_forms` registry), `values` (the `.value` slot of every element, by
  element identity) and `log`.
- lxml's `htmltree.xpath`, `element.cssselect` and `urllib.parse.urljoin` are
  constant function fields `select`, `selectWithin` and `urljoin`, left
  uninterpreted.
- Every call of `_do_method` is appended to `log` as a `Fetch(verb, url, data,
  recordUrl)`.
- Form fields and the controls found by queries share the `values` slots, as
  they share lxml elements.
- An input created by `click` gets a fresh identity from the counter `created`.
- `time.time()` is a parameter `clock` of the polling methods: reading 0 is the
  deadline computation and reading `k` the `k`-th loop test. It is required to
  be strictly increasing.

Behaviour worth knowing, proved in the model:

- Only the first input of each name is examined for removal. Of two submit
  inputs that share a name, when the first is a direct child of the form, the
  second stays in the form and its value is submitted
  (`Document.SharedSubmitNameSurvives`). When the clicked button is the form's
  only input of its name and a direct child of the form, the hidden input
  `click` appends carries the button's value into the payload
  (`Driver.ClickedButtonIsSubmitted`).
- `serialize` removes submit inputs from the form itself, so serialising the
  same form again can strip more. When no two inputs share a name, a second
  pass removes nothing (`Document.StrippedIdempotent`). Two direct-child submit
  inputs of one name lose one input per pass. The second submission therefore
  drops that name from the payload (`Document.ResubmitStripsAgain`).
- `fill_form(..., name=n)` takes its scope from `find_by_name`, whose elements
  are control wrappers without an `_element`. As soon as `n` matches anything,
  the first field fails with AttributeError, even with `ignore_missing`
  (`Driver.LxmlDriver.NameScopeFails`). This relies on `ElementList` passing
  attribute access to its first element; `splinter/element_list.py` is not part
  of this model.
- `back` decrements the cursor before indexing the history. A cursor two or
  more past the last entry therefore moves and then raises IndexError
  (`Driver.LxmlDriver.Back`).

## Model

| member | source | states |
|---|---|---|
| Values.OrElse | splinter/driver/lxmldriver.py:176-177 | `x or default`: the given string unless it is None or empty, then the default |
| Values.ContainsIff | splinter/driver/lxmldriver.py:300 | `text in s` holds exactly when `text` occurs in `s` at some position |
| Values.LowerIsLower | splinter/driver/lxmldriver.py:84 | `lower` leaves no upper-case letter and is idempotent |
| Values.StripSpec | splinter/driver/lxmldriver.py:87 | `strip` returns a slice of its input with only whitespace outside it, and neither starts nor ends with whitespace |
| Values.StripPadded | splinter/driver/lxmldriver.py:87 | any whitespace around a string that does not start or end with whitespace is removed by `strip` |
| Document.IsLink | splinter/driver/lxmldriver.py:316-317 | only an `a` element is a link: an `area` or `link` element is not |
| Document.IsControl | splinter/driver/lxmldriver.py:319-320 | a button, input or textarea is a control. A control is never a link, and a `select` is not a control |
| Document.Classify | splinter/driver/lxmldriver.py:163-183 | one handle per match, in match order. If any match is an `a`, every handle is a link and the provenance is `("xpath", xpath)`. Otherwise a handle is a control exactly when its tag is button, input or textarea, and the provenance is `(original_find or "xpath", original_query or xpath)` |
| Document.ControlValue | splinter/driver/lxmldriver.py:406-411 | a control's value is its value slot when its element has one. Otherwise it is its `.text`, or None when `.text` is None |
| Document.Checked | splinter/driver/lxmldriver.py:413-415 | `bool(control.value)`: the truthiness of the value slot. AttributeError, with no fallback to `.text`, when the element has no value slot |
| Document.CheckedAfterAssignment | splinter/driver/lxmldriver.py:413-415 | after `check` a control with a value slot reads as checked, and after `uncheck` as unchecked. Without a value slot `checked` fails |
| Document.OptionSelected | splinter/driver/lxmldriver.py:453-459 | KeyError when the option has no `value` attribute; otherwise true exactly when the select's value is that attribute |
| Document.Coerce | splinter/driver/lxmldriver.py:243-256 | checkbox: a truthy value as given, a falsy one as `[]`; select: a list as given, anything else wrapped in a list; any other type: the value as given |
| Document.Names | splinter/driver/lxmldriver.py:62 | `form.inputs.keys()`: exactly the names of the inputs, without repetition |
| Document.Lookup | splinter/driver/lxmldriver.py:63 | `form.inputs[key]`: None exactly when no input has that name; otherwise the first input of the form with that name |
| Document.SetField | splinter/driver/lxmldriver.py:431 | `fields[name] = value`: KeyError when no input has that name; otherwise that slot alone is overwritten |
| Document.SetFieldReadBack | splinter/driver/lxmldriver.py:429-431 | a filled field reads back as the filled value; filling it again with the same value changes nothing |
| Document.FillThenValue | splinter/driver/lxmldriver.py:406-431 | filling a control that is its form's first input of its name makes its `value` the filled value |
| Document.Register | splinter/driver/lxmldriver.py:436-438 | `setdefault`: the registry gains at most the form's key, keeps every stored entry, and returns the stored form |
| Document.RegisterFirstWins | splinter/driver/lxmldriver.py:436-438 | registering a second form under a name already stored returns the first form and leaves the registry unchanged |
| Document.StripStep | splinter/driver/lxmldriver.py:62-69 | handling one more key of the removal loop removes that key's first input when it is a submit input under the form, and nothing else |
| Document.StripKeeps | splinter/driver/lxmldriver.py:62-69 | removal adds no input and keeps every input that is not a submit input directly under the form |
| Document.StrippedDistinct | splinter/driver/lxmldriver.py:62-69 | when input names are distinct, exactly the submit inputs that are children of the form are removed |
| Document.SharedSubmitStripped | splinter/driver/lxmldriver.py:62-69 | of two inputs sharing a name, the first a submit input, only the first is examined: removed when it is a direct child of the form, kept with the second otherwise |
| Document.SharedSubmitNameSurvives | splinter/driver/lxmldriver.py:59-81 | when the first of two submit inputs sharing a name is a direct child of the form, only it is removed and the payload holds just that name with the second's value. When it is nested, neither is removed and the payload holds the first's value |
| Document.NonSubmitsDistinct | splinter/driver/lxmldriver.py:62-69 | dropping the direct-child submit inputs keeps distinct input names distinct |
| Document.NonSubmitsTwice | splinter/driver/lxmldriver.py:62-69 | dropping the direct-child submit inputs a second time changes nothing |
| Document.StrippedIdempotent | splinter/driver/lxmldriver.py:59-69 | when no two inputs share a name, serialising an already serialised form removes nothing more |
| Document.ResubmitStripsAgain | splinter/driver/lxmldriver.py:59-81 | two direct-child submit inputs of one name: the first serialisation keeps the second, the next removes it too, and the two payloads differ when its value is not None |
| Document.Fields | splinter/driver/lxmldriver.py:71 | `form.fields.items()`: one pair per input name, in the order of the names, holding that name's field value |
| Document.CollectSpec | splinter/driver/lxmldriver.py:71-75 | the collected data has a key exactly for each field whose value is not None, holding that value (a multi-select as a list) |
| Document.OpenFilesSpec | splinter/driver/lxmldriver.py:76-79 | opening files adds and removes no key; exactly the keys of file inputs become file handles |
| Document.PayloadSpec | splinter/driver/lxmldriver.py:59-81 | the payload has a key exactly for each input name whose field is not None: a file handle for a file input, the plain value otherwise |
| Driver.CursorMoves | splinter/driver/lxmldriver.py:102-110 | `back` moves the cursor by exactly -1 only when it is at least 1, and `forward` by exactly +1 only when it is in `[0, len-1)`. Otherwise each leaves it alone. Both keep the cursor in `[-1, len)` and each undoes a move of the other |
| Driver.BackTimesSpec | splinter/driver/lxmldriver.py:102-105 | `k` calls of `back` move the cursor `k` to the left, stopping at entry 0, and do nothing from below 1 |
| Driver.SubmitMethod | splinter/driver/lxmldriver.py:84 | the method defaults to `get`; otherwise it is the `method` attribute with each character lower-cased |
| Driver.SubmitMethodSpec | splinter/driver/lxmldriver.py:84 | the method is sent in lower case whatever case the form writes it in |
| Driver.SubmitTarget | splinter/driver/lxmldriver.py:85-91 | without an `action` attribute the current url; otherwise the current url or its join with the action |
| Driver.SubmitTargetSpec | splinter/driver/lxmldriver.py:85-91 | a missing action, or one that strips to `.` or to nothing, keeps the current url; any other action is joined to it |
| Driver.FillControlIdempotent | splinter/driver/lxmldriver.py:429-438 | filling a control twice with the same value ends as filling it once, with the same outcome |
| Driver.ClickedButtonIsSubmitted | splinter/driver/lxmldriver.py:417-425 | after a click on a form's only submit input of its name, when it is a direct child of the form, serialising the form submits that name with the button's value |
| Driver.RemoveSubmits | splinter/driver/lxmldriver.py:62-69 | the removal loop leaves exactly `Stripped(inputs)` |
| Driver.CollectFields | splinter/driver/lxmldriver.py:71-75 | the collection loop builds exactly `Collect(fields)` |
| Driver.OpenFileInputs | splinter/driver/lxmldriver.py:76-79 | the file loop builds exactly `OpenFiles(data, names, inputs)` |
| Driver.LxmlDriver.constructor | splinter/driver/lxmldriver.py:35-39 | the history starts empty with the cursor at -1; the registry and the log start empty |
| Driver.LxmlDriver.Visit | splinter/driver/lxmldriver.py:56-57 | one GET of the url, with no `record_url` argument |
| Driver.LxmlDriver.Reload | splinter/driver/lxmldriver.py:112-113 | one GET of the current url; nothing else changes |
| Driver.LxmlDriver.Back | splinter/driver/lxmldriver.py:102-105 | the cursor moves as `BackIndex`. When it moved, one GET of the new entry with `record_url=False`, or IndexError past the end of the history. Otherwise nothing is fetched, and the history is never changed |
| Driver.LxmlDriver.Forward | splinter/driver/lxmldriver.py:107-110 | the cursor moves as `ForwardIndex`. When it moved, one GET of the new entry with `record_url=False`; otherwise nothing is fetched, and the history is never changed |
| Driver.LxmlDriver.Serialize | splinter/driver/lxmldriver.py:59-81 | the form loses its submit inputs as `Stripped` says, and the data is `Payload` of the remaining inputs |
| Driver.LxmlDriver.Submit | splinter/driver/lxmldriver.py:83-95 | the url becomes the form's target, then exactly one request is logged with the form's method, that url and the serialised form |
| Driver.LxmlDriver.FindLinksByXPath | splinter/driver/lxmldriver.py:276-283 | every match, in order, as a link, with provenance `("xpath", xpath)` |
| Driver.LxmlDriver.FindByXPath | splinter/driver/lxmldriver.py:163-183 | the loop with its early return to link mode produces `Classify` of the matches |
| Driver.LxmlDriver.FindByTag | splinter/driver/lxmldriver.py:185-186 | `//tag` classified, with provenance `("tag", tag)` when there is no link |
| Driver.LxmlDriver.FindById | splinter/driver/lxmldriver.py:203-208 | the matches of `//*[@id="id"][1]`, classified, with provenance `("id", id)` when none is a link |
| Driver.LxmlDriver.FindByValue | splinter/driver/lxmldriver.py:188-193 | when the `@value` query matches anything, its matches classified, with provenance `("value", value)` when no match is a link. Otherwise the text-equality result with default provenance, which may be empty |
| Driver.LxmlDriver.FindByName | splinter/driver/lxmldriver.py:210-222 | every match, in order, as a control, with the xpath (not the name) as the query of its provenance |
| Driver.LxmlDriver.Check | splinter/driver/lxmldriver.py:264-266 | the first control of that name gets `["checked"]` and nothing else changes; ElementDoesNotExist when there is none |
| Driver.LxmlDriver.Uncheck | splinter/driver/lxmldriver.py:268-270 | the first control of that name gets `[]` and nothing else changes; ElementDoesNotExist when there is none |
| Driver.LxmlDriver.Fill | splinter/driver/lxmldriver.py:224-225 | `fill` of the first control of that name; ElementDoesNotExist with nothing changed when there is none |
| Driver.LxmlDriver.FillFieldsAppend | splinter/driver/lxmldriver.py:235-259 | fields are filled in order: filling `a + b` fills `a` and, only if that passed, `b`. Fields before a failing one stay set |
| Driver.LxmlDriver.Scope | splinter/driver/lxmldriver.py:228-233 | with `form_id`, one handle per `find_by_id` match, whatever `name` says; with only `name`, every `find_by_name` match as a control; with neither, no scope |
| Driver.LxmlDriver.FieldTarget | splinter/driver/lxmldriver.py:235-241 | unscoped: the first control of that name, or ElementDoesNotExist when there is none. Scoped by a control wrapper: AttributeError. Scoped by another element: the first match under it, or ElementDoesNotExist |
| Driver.LxmlDriver.FillFields | splinter/driver/lxmldriver.py:235-259 | with `ignore_missing`, no ElementDoesNotExist escapes `fill_form`; no value slot is ever removed |
| Driver.LxmlDriver.FillFieldsFrame | splinter/driver/lxmldriver.py:235-256 | a slot that no field's control owns keeps its value |
| Driver.LxmlDriver.FoundFieldsSet | splinter/driver/lxmldriver.py:235-256 | when every field is found, `fill_form` passes and each control holds its last field's coerced value |
| Driver.LxmlDriver.IgnoredFieldSkipped | splinter/driver/lxmldriver.py:235-259 | with `ignore_missing`, a field whose control is missing is skipped: the fields before and after it are filled as if it were absent |
| Driver.LxmlDriver.MissingFieldStops | splinter/driver/lxmldriver.py:257-259 | without `ignore_missing`, the first missing field ends `fill_form` with its error; the fields before it stay set |
| Driver.LxmlDriver.NameScopeFails | splinter/driver/lxmldriver.py:230-239 | scoped by a name that matches, `fill_form` fails on its first field with AttributeError and changes nothing |
| Driver.LxmlDriver.FillForm | splinter/driver/lxmldriver.py:227-259 | the loop's outcome and values are those of `FillFields` over the scope (`form_id` over `name`) and the fields in order |
| Driver.LxmlDriver.EffectiveWait | splinter/driver/lxmldriver.py:288 | `wait_time or self.wait_time`: the driver's wait for None or 0, the given wait otherwise |
| Driver.LxmlDriver.ProbeText | splinter/driver/lxmldriver.py:297-305 | false when there is no body; otherwise whether the text occurs in the first body's text |
| Driver.LxmlDriver.IsTextPresent | splinter/driver/lxmldriver.py:288-295 | true exactly when the first deadline check passes and the text is in the body; false, never an error, otherwise. A wait of 0 or None uses the driver's wait |
| Driver.LxmlDriver.IsTextNotPresent | splinter/driver/lxmldriver.py:307-314 | true exactly when the first deadline check passes and the text is not in the body; false otherwise |
| Driver.ControlElement.constructor | splinter/driver/lxmldriver.py:399-401 | the wrapper holds the control and its driver |
| Driver.ControlElement.GetParentForm | splinter/driver/lxmldriver.py:436-438 | StopIteration with the registry unchanged when the control has no form; otherwise the registry's form for that name, with the form stored when it was new |
| Driver.ControlElement.Fill | splinter/driver/lxmldriver.py:429-431 | the form is registered first; then KeyError when the control has no name, or the field of that name is overwritten |
| Driver.ControlElement.Click | splinter/driver/lxmldriver.py:417-427 | a submit control with a non-empty name appends exactly one new hidden input with its name and its value (or `""`) to the registered form. Any other control appends nothing. The form is returned for `submit_data` |

## Left out

- lxml itself: parsing, XPath and CSS evaluation are the uninterpreted `select`
  and `selectWithin`. The element `value` and `text_content` of an element are
  given data, and the per-type value semantics of lxml are not modelled:
  checkbox and radio groups, a checkbox's value read-back, and how a select
  maps an assignment to option selection.
- `urllib.parse.urljoin` is the uninterpreted `urljoin`; RFC 3986 resolution is
  not modelled.
- `_do_method`, `submit_data`, `html`, `cookies` and `quit` are stubs or
  transport in the source. A request is an entry of `log`, and `Click` returns
  the form it would hand to `submit_data`.
- `open(path, "rb")` in `serialize` is file I/O: the model tags the value as
  `Opened`.
- `time.time()` is the `clock` parameter in integer ticks; floating-point wait
  times are not modelled.
- The push of visited urls into the history happens in subclasses that are not
  part of this model. `lastUrls` is given state, and `Visit` records nothing in
  it.
- Driver.LxmlDriver.Serialize: returns the form without its submit inputs
  instead of removing them from the caller's form object in place. A second
  submission of the same form object is modelled by serialising the returned
  form again.
- Driver.LxmlDriver.Serialize: the payload is a map, so the insertion order of
  the Python dict is not modelled.
- Driver.ControlElement.Click: the appended hidden input is added to the
  registered form, but not to the document that later queries search.
- Driver.LxmlDriver.FillForm: `field_values` is a sequence of pairs in iteration
  order rather than a dict. A missing field's ElementDoesNotExist is re-raised
  as the same error, not wrapped in a new one.
- Values.Lower: lower-cases ASCII letters only, not the rest of Unicode.
- Document.HandleText: a control whose value is not a string reads as the empty
  string. Python would test list membership for a list value and raise
  TypeError for None.
- Driver.LxmlDriver.NameMissing: the provenance carried by the error of `.first` on an
  empty list is taken to be the list's `(find_by, query)`.
  `splinter/element_list.py` is not part of this model.
- `title`, `outer_html`, `LxmlElement.html`, `has_class`, the element-level
  finders other than `find_by_name`, and `LxmlLinkElement.click` depend on lxml
  serialisation or are not part of this model.
- `choose`, `select`, `attach_file`, `find_option_by_value`,
  `find_option_by_text`, `find_by_css` and `find_by_text` are not part of this
  model.
- `splinter/driver/__init__.py` (abstract API), `tests/get_browser.py`
  (browser factory) and `splinter/driver/webdriver/remote_connection.py`
  (network plumbing) are not part of this model.
