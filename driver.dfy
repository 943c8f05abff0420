/** The static-document driver (LxmlDriver) and its control element wrapper
    (LxmlControlElement): navigation history, form submission, queries with
    their result classification, form filling and the polling text checks. */
module Driver {
  import opened Values
  import opened Document

  /** One call of `_do_method(method, url, data=..., record_url=...)`, the
      transport the concrete drivers provide; an argument not passed is None. */
  datatype Fetch = Fetch(verb: string, url: string, data: Option<map<string, Datum>>, recordUrl: Option<bool>)

  // ---------------------------------------------------------------------------
  // The history cursor.

  /** The cursor after `back`. */
  function BackIndex(index: int): int
  {
    if index >= 1 then index - 1 else index
  }

  /** The cursor after `forward` over a history of `count` entries. */
  function ForwardIndex(index: int, count: nat): int
  {
    if 0 <= index < count - 1 then index + 1 else index
  }

  /** A cursor into a history of `count` entries, -1 when it points nowhere. */
  predicate CursorValid(index: int, count: nat)
  {
    -1 <= index < count
  }

  /** `back` moves left by exactly one only when a left position exists, and
      `forward` right by exactly one only when a right position exists; both
      keep a valid cursor valid, and each undoes a move of the other. */
  lemma CursorMoves(index: int, count: nat)
    requires CursorValid(index, count)
    ensures CursorValid(BackIndex(index), count) && CursorValid(ForwardIndex(index, count), count)
    ensures BackIndex(index) == index - 1 <==> index >= 1
    ensures BackIndex(index) != index - 1 ==> BackIndex(index) == index
    ensures ForwardIndex(index, count) == index + 1 <==> 0 <= index < count - 1
    ensures ForwardIndex(index, count) != index + 1 ==> ForwardIndex(index, count) == index
    ensures index >= 1 ==> ForwardIndex(BackIndex(index), count) == index
    ensures 0 <= index < count - 1 ==> BackIndex(ForwardIndex(index, count)) == index
  {
  }

  /** The cursor after `k` calls of `back`. */
  function BackTimes(index: int, k: nat): int
  {
    if k == 0 then index else BackIndex(BackTimes(index, k - 1))
  }

  /** `k` calls of `back` move the cursor `k` to the left, stopping at the
      first entry; from a cursor below 1 they do nothing. */
  lemma {:induction false} BackTimesSpec(index: int, k: nat)
    ensures index >= 1 && k <= index ==> BackTimes(index, k) == index - k
    ensures index >= 1 && k > index ==> BackTimes(index, k) == 0
    ensures index < 1 ==> BackTimes(index, k) == index
  {
    if k > 0 {
      BackTimesSpec(index, k - 1);
    }
  }

  // ---------------------------------------------------------------------------
  // The request a form submission makes.

  /** `form.attrib.get("method", "get").lower()`. */
  function SubmitMethod(attrs: map<string, string>): (r: string)
    ensures "method" !in attrs ==> r == "get"
    ensures "method" in attrs ==> |r| == |attrs["method"]|
    ensures "method" in attrs ==> forall i :: 0 <= i < |r| ==> r[i] == LowerChar(attrs["method"][i])
  {
    Lower(Get(attrs, "method", "get"))
  }

  /** The method is sent in lower case whatever case the form writes it in;
      `POST` and `post` are two examples. */
  lemma SubmitMethodSpec(attrs: map<string, string>)
    ensures forall i :: 0 <= i < |SubmitMethod(attrs)| ==> !IsUpper(SubmitMethod(attrs)[i])
    ensures SubmitMethod(map["method" := "POST"]) == "post"
    ensures SubmitMethod(map["method" := "post"]) == "post"
  {
    LowerIsLower(Get(attrs, "method", "get"));
  }

  /** The url a form is submitted to: the current url when the `action`
      attribute is missing, blank or `.` once stripped, and otherwise
      `urljoin(current, action)` on the action as written. */
  function SubmitTarget(current: string, attrs: map<string, string>, urljoin: (string, string) -> string)
    : (r: string)
    ensures "action" !in attrs ==> r == current
    ensures r == current || ("action" in attrs && r == urljoin(current, attrs["action"]))
  {
    var action := Get(attrs, "action", "");
    if Strip(action) !in [".", ""] then urljoin(current, action) else current
  }

  /** Whitespace around `.` or around nothing keeps the current url; any action
      that strips to something else is joined to it. */
  lemma SubmitTargetSpec(current: string, attrs: map<string, string>, urljoin: (string, string) -> string,
                         pad: string, pad': string)
    requires forall k :: 0 <= k < |pad| ==> IsSpace(pad[k])
    requires forall k :: 0 <= k < |pad'| ==> IsSpace(pad'[k])
    ensures "action" !in attrs ==> SubmitTarget(current, attrs, urljoin) == current
    ensures "action" in attrs && attrs["action"] == pad + "." + pad' ==>
              SubmitTarget(current, attrs, urljoin) == current
    ensures "action" in attrs && attrs["action"] == pad + "" + pad' ==>
              SubmitTarget(current, attrs, urljoin) == current
    ensures "action" in attrs && Strip(attrs["action"]) !in [".", ""] ==>
              SubmitTarget(current, attrs, urljoin) == urljoin(current, attrs["action"])
  {
    StripPadded(pad, ".", pad');
    StripPadded(pad, "", pad');
  }

  // ---------------------------------------------------------------------------
  // LxmlControlElement.fill as a function of the registry and the value slots.

  /** `fill(value)` on a control: register its form (StopIteration when it has
      none), then write the form field named by the control's `name` attribute
      (KeyError when it has none, or when the form has no input of that name). */
  function FillControl(forms: map<FormId, Form>, values: Store, control: Node, value: PyValue)
    : (Outcome, map<FormId, Form>, Store)
  {
    match control.form
    case None => (Fail(StopIteration), forms, values)
    case Some(f) =>
      var (registry, form) := Register(forms, f);
      if "name" !in control.attrs then (Fail(KeyError("name")), registry, values)
      else
        match SetField(values, form, control.attrs["name"], value)
        case Failure(e) => (Fail(e), registry, values)
        case Success(after) => (Pass, registry, after)
  }

  /** `fill` overwrites: filling a control a second time with the same value
      changes nothing and ends the same way. */
  lemma FillControlIdempotent(forms: map<FormId, Form>, values: Store, control: Node, value: PyValue)
    ensures var (r1, forms1, values1) := FillControl(forms, values, control, value);
            FillControl(forms1, values1, control, value) == (r1, forms1, values1)
  {
    match control.form
    case None =>
    case Some(f) =>
      var (registry, form) := Register(forms, f);
      RegisterFirstWins(forms, f, f);
      if "name" in control.attrs {
        var name := control.attrs["name"];
        if SetField(values, form, name, value).Success? {
          SetFieldReadBack(values, form, name, value);
        }
      }
  }

  /** Whether clicking the control adds a hidden input: a submit control with a
      non-empty `name`. */
  predicate SubmitsName(control: Node)
  {
    Attr(control.attrs, "type") == Some("submit") && Get(control.attrs, "name", "") != ""
  }

  /** The hidden input a click appends, as a new element. */
  function HiddenInput(control: Node, serial: nat): Input
  {
    Input(Created(serial), Get(control.attrs, "name", ""), "hidden", true)
  }

  /** Clicking a named submit input of a form, the form's only input of that
      name, and serialising the form then submits the button's name with its
      value: the button is removed and the hidden input it appended carries the
      value. */
  lemma ClickedButtonIsSubmitted(form: Form, p: nat, values: Store, hidden: Input, value: string)
    requires p < |form.inputs| && form.inputs[p].kind == "submit" && form.inputs[p].child
    requires forall i :: 0 <= i < |form.inputs| && form.inputs[i].name == form.inputs[p].name ==> i == p
    requires hidden.name == form.inputs[p].name && hidden.kind == "hidden" && hidden.child
    ensures var values' := values[hidden.node := PyStr(value)];
            var inputs := Stripped(form.inputs + [hidden]);
            hidden.name in Payload(inputs, values')
            && Payload(inputs, values')[hidden.name] == Plain(PyStr(value))
  {
    var all := form.inputs + [hidden];
    var inputs := Stripped(all);
    assert hidden.name in Names(all) by {
      assert all[p].name == hidden.name;
    }
    StripOnly(all, KeySet(Names(all)), {}, p, hidden);
    var values' := values[hidden.node := PyStr(value)];
    PayloadSpec(inputs, values');
    assert Lookup(inputs, hidden.name) == Some(hidden);
    assert hidden.name in Names(inputs);
  }

  /** Looking a name up past an input of another name. */
  lemma LookupPast(x: Input, tail: seq<Input>, drop: bool, name: string)
    requires x.name != name
    ensures Lookup((if drop then [] else [x]) + tail, name) == Lookup(tail, name)
  {
    if drop {
      assert [] + tail == tail;
    } else {
      assert ([x] + tail)[1..] == tail;
    }
  }

  /** Stripping where input `p` is a submit input and the first of its name,
      and the last input the only other one of that name: the last input is
      the first of that name afterwards. */
  lemma {:induction false} StripOnly(inputs: seq<Input>, keys: set<string>, seen: set<string>, p: nat, hidden: Input)
    requires p < |inputs| - 1 && inputs[|inputs| - 1] == hidden
    requires inputs[p].kind == "submit" && inputs[p].child && inputs[p].name == hidden.name
    requires hidden.name in keys && hidden.name !in seen
    requires forall i :: 0 <= i < |inputs| - 1 && inputs[i].name == hidden.name ==> i == p
    ensures Lookup(StripFrom(inputs, keys, seen), hidden.name) == Some(hidden)
    decreases |inputs|
  {
    var x, rest := inputs[0], inputs[1..];
    var tail := StripFrom(rest, keys, seen + {x.name});
    if p == 0 {
      assert StripFrom(inputs, keys, seen) == [] + tail;
      assert [] + tail == tail;
      forall i | 0 <= i < |rest| - 1
        ensures rest[i].name != hidden.name
      {
        assert rest[i] == inputs[i + 1];
      }
      NoneNamedBefore(rest, keys, seen + {x.name}, hidden);
    } else {
      forall i | 0 <= i < |rest| - 1 && rest[i].name == hidden.name
        ensures i == p - 1
      {
        assert rest[i] == inputs[i + 1];
      }
      StripOnly(rest, keys, seen + {x.name}, p - 1, hidden);
      var drop := x.name in keys && x.name !in seen && x.kind == "submit" && x.child;
      assert StripFrom(inputs, keys, seen) == (if drop then [] else [x]) + tail;
      LookupPast(x, tail, drop, hidden.name);
    }
  }

  /** Once a name is seen, the last input of that name, the only one left,
      survives stripping and is its first input. */
  lemma {:induction false} NoneNamedBefore(inputs: seq<Input>, keys: set<string>, seen: set<string>, hidden: Input)
    requires hidden.name in seen
    requires inputs != [] && inputs[|inputs| - 1] == hidden
    requires forall i :: 0 <= i < |inputs| - 1 ==> inputs[i].name != hidden.name
    ensures Lookup(StripFrom(inputs, keys, seen), hidden.name) == Some(hidden)
    decreases |inputs|
  {
    var x, rest := inputs[0], inputs[1..];
    var tail := StripFrom(rest, keys, seen + {x.name});
    if |inputs| == 1 {
      assert StripFrom(inputs, keys, seen) == [hidden] + [];
    } else {
      forall i | 0 <= i < |rest| - 1
        ensures rest[i].name != hidden.name
      {
        assert rest[i] == inputs[i + 1];
      }
      NoneNamedBefore(rest, keys, seen + {x.name}, hidden);
      var drop := x.name in keys && x.name !in seen && x.kind == "submit" && x.child;
      assert StripFrom(inputs, keys, seen) == (if drop then [] else [x]) + tail;
      LookupPast(x, tail, drop, hidden.name);
    }
  }

  /** The first loop of `serialize`: for each field name, in order, remove the
      form's first input of that name when it is a submit input; a nested one
      is not a child of the form, its removal raises ValueError, which is
      swallowed. */
  method RemoveSubmits(inputs: seq<Input>) returns (stripped: seq<Input>)
    ensures stripped == Stripped(inputs)
  {
    var keys := Names(inputs);
    stripped := inputs;
    StripNothing(inputs, {});
    assert KeySet(keys[..0]) == {};
    var i := 0;
    while i < |keys|
      invariant 0 <= i <= |keys|
      invariant stripped == StripFrom(inputs, KeySet(keys[..i]), {})
    {
      var key := keys[i];
      ghost var before := stripped;
      match Lookup(stripped, key) {
        case Some(input) =>
          if input.kind == "submit" && input.child {
            stripped := Without(stripped, key);
          }
        case None =>
      }
      assert stripped == StripKey(before, key);
      assert key !in KeySet(keys[..i]);
      StripStep(inputs, KeySet(keys[..i]), {}, key);
      assert keys[..i + 1] == keys[..i] + [key];
      assert KeySet(keys[..i + 1]) == KeySet(keys[..i]) + {key};
      i := i + 1;
    }
    assert keys[..|keys|] == keys;
  }

  /** The second loop of `serialize`: every field whose value is not None,
      a multiple select's options as a list. */
  method CollectFields(fields: seq<(string, PyValue)>) returns (data: map<string, Datum>)
    ensures data == Collect(fields)
  {
    data := map[];
    var j := 0;
    while j < |fields|
      invariant 0 <= j <= |fields|
      invariant data == Collect(fields[..j])
    {
      var (k, v) := fields[j];
      if v != PyNone {
        data := data[k := Plain(AsData(v))];
      }
      assert fields[..j + 1][..j] == fields[..j];
      j := j + 1;
    }
    assert fields[..|fields|] == fields;
  }

  /** The third loop of `serialize`: the collected value of every file input is
      replaced by the opened file. */
  method OpenFileInputs(collected: map<string, Datum>, names: seq<string>, inputs: seq<Input>)
    returns (data: map<string, Datum>)
    ensures data == OpenFiles(collected, names, inputs)
  {
    data := collected;
    var n := 0;
    while n < |names|
      invariant 0 <= n <= |names|
      invariant data == OpenFiles(collected, names[..n], inputs)
    {
      var key := names[n];
      if IsFileInput(inputs, key) && key in data {
        data := data[key := OpenFile(data[key])];
      }
      assert names[..n + 1][..n] == names[..n];
      n := n + 1;
    }
    assert names[..|names|] == names;
  }

  /** A strictly increasing clock: every reading of `time.time()` is later than
      the one before. */
  ghost predicate Monotone(clock: nat -> int)
  {
    forall j: nat, k: nat :: j < k ==> clock(j) < clock(k)
  }

  class LxmlDriver {
    /** The default wait of `is_text_present`, in clock ticks. */
    const waitTime: int
    /** `htmltree.xpath`: the elements a query matches, in document order. */
    const select: string -> seq<Node>
    /** `element.cssselect`: the elements a CSS selector matches under an element. */
    const selectWithin: (Node, string) -> seq<Node>
    /** `urllib.parse.urljoin`. */
    const urljoin: (string, string) -> string

    var url: string
    /** `_last_urls` and `_last_url_index`, which the concrete drivers push to. */
    var lastUrls: seq<string>
    var index: int
    /** `_forms`: the form registry. */
    var forms: map<FormId, Form>
    /** The value slots of the document's elements. */
    var values: Store
    /** How many elements the driver has created. */
    var created: nat
    /** The calls made to the transport, oldest first. */
    var log: seq<Fetch>

    constructor (waitTime: int, select: string -> seq<Node>, selectWithin: (Node, string) -> seq<Node>,
                 urljoin: (string, string) -> string, values: Store)
      ensures this.waitTime == waitTime && this.select == select
      ensures this.selectWithin == selectWithin && this.urljoin == urljoin && this.values == values
      ensures url == "" && lastUrls == [] && index == -1 && forms == map[] && created == 0 && log == []
    {
      this.waitTime := waitTime;
      this.select := select;
      this.selectWithin := selectWithin;
      this.urljoin := urljoin;
      this.values := values;
      url := "";
      lastUrls := [];
      index := -1;
      forms := map[];
      created := 0;
      log := [];
    }

    // -------------------------------------------------------------------------
    // Navigation.

    method Visit(target: string)
      modifies this`log
      ensures log == old(log) + [Fetch("get", target, None, None)]
    {
      log := log + [Fetch("get", target, None, None)];
    }

    /** `reload` fetches the current url again and touches no history. */
    method Reload()
      modifies this`log
      ensures log == old(log) + [Fetch("get", url, None, None)]
    {
      Visit(url);
    }

    /** `back`: with an entry to the left, move there and fetch it without
      recording it; otherwise do nothing. The history itself never changes. A
      cursor past the end of the history raises IndexError after the move. */
    method Back() returns (r: Outcome)
      modifies this`index, this`log
      ensures index == BackIndex(old(index))
      ensures old(index) < 1 ==> r == Pass && log == old(log)
      ensures old(index) >= 1 && index < |lastUrls| ==>
                r == Pass && log == old(log) + [Fetch("get", lastUrls[index], None, Some(false))]
      ensures old(index) >= 1 && index >= |lastUrls| ==> r == Fail(IndexError(index)) && log == old(log)
    {
      r := Pass;
      if index >= 1 {
        index := index - 1;
        if index < |lastUrls| {
          log := log + [Fetch("get", lastUrls[index], None, Some(false))];
        } else {
          r := Fail(IndexError(index));
        }
      }
    }

    /** `forward`: with an entry to the right, move there and fetch it without
      recording it; otherwise do nothing. */
    method Forward()
      modifies this`index, this`log
      ensures index == ForwardIndex(old(index), |lastUrls|)
      ensures index != old(index) ==>
                0 <= index < |lastUrls| && log == old(log) + [Fetch("get", lastUrls[index], None, Some(false))]
      ensures index == old(index) ==> log == old(log)
    {
      if index >= 0 && index < |lastUrls| - 1 {
        index := index + 1;
        log := log + [Fetch("get", lastUrls[index], None, Some(false))];
      }
    }

    // -------------------------------------------------------------------------
    // Submission.

    /** `serialize`: remove the submit inputs (keeping nested ones), collect the
      fields that are not None and open the file inputs. The stripped form is
      returned rather than updated in the caller's object. */
    method Serialize(form: Form) returns (stripped: Form, data: map<string, Datum>)
      ensures stripped == form.(inputs := Stripped(form.inputs))
      ensures data == Payload(stripped.inputs, values)
    {
      var inputs := RemoveSubmits(form.inputs);
      var collected := CollectFields(Fields(inputs, values));
      data := OpenFileInputs(collected, Names(inputs), inputs);
      stripped := form.(inputs := inputs);
    }

    /** `submit`: the url becomes the form's target, then exactly one request is
      made with the form's method, that url and the serialised form. */
    method Submit(form: Form) returns (stripped: Form, data: map<string, Datum>)
      modifies this`url, this`log
      ensures url == SubmitTarget(old(url), form.attrs, urljoin)
      ensures stripped == form.(inputs := Stripped(form.inputs))
      ensures data == Payload(stripped.inputs, values)
      ensures log == old(log) + [Fetch(SubmitMethod(form.attrs), url, Some(data), None)]
    {
      var verb := SubmitMethod(form.attrs);
      var target := SubmitTarget(url, form.attrs, urljoin);
      stripped, data := Serialize(form);
      Request(verb, target, data);
    }

    /** `self._url = target` followed by the one request of a submission. */
    method Request(verb: string, target: string, data: map<string, Datum>)
      modifies this`url, this`log
      ensures url == target && log == old(log) + [Fetch(verb, target, Some(data), None)]
    {
      url := target;
      log := log + [Fetch(verb, target, Some(data), None)];
    }

    // -------------------------------------------------------------------------
    // Queries.

    /** `_find_links_by_xpath`: every match, in order, as a link. */
    function FindLinksByXPath(xpath: string): (r: ResultSet)
      ensures r.findBy == "xpath" && r.query == xpath
      ensures |r.elements| == |select(xpath)|
      ensures forall i :: 0 <= i < |r.elements| ==> r.elements[i] == Link(select(xpath)[i])
    {
      ResultSet(AsLinks(select(xpath)), "xpath", xpath)
    }

    /** `find_by_xpath`: classify the matches one by one, switching the whole
      result to links at the first link. */
    method FindByXPath(xpath: string, originalFind: Option<string>, originalQuery: Option<string>)
      returns (r: ResultSet)
      ensures r == Classify(select(xpath), xpath, originalFind, originalQuery)
    {
      var matched := select(xpath);
      var elements: seq<Handle> := [];
      var i := 0;
      while i < |matched|
        invariant 0 <= i <= |matched|
        invariant forall j :: 0 <= j < i ==> !IsLink(matched[j])
        invariant |elements| == i
        invariant forall j :: 0 <= j < i ==> elements[j] == Wrap(matched[j])
      {
        var element := matched[i];
        if IsLink(element) {
          r := FindLinksByXPath(xpath);
          return;
        } else if IsControl(element) {
          elements := elements + [Control(element)];
        } else {
          elements := elements + [Generic(element)];
        }
        i := i + 1;
      }
      r := ResultSet(elements, OrElse(originalFind, "xpath"), OrElse(originalQuery, xpath));
    }

    method FindByTag(tag: string) returns (r: ResultSet)
      ensures r == Classify(select(TagQuery(tag)), TagQuery(tag), Some("tag"), Some(tag))
    {
      r := FindByXPath(TagQuery(tag), Some("tag"), Some(tag));
    }

    method FindById(id: string) returns (r: ResultSet)
      ensures r == Classify(select(IdQuery(id)), IdQuery(id), Some("id"), Some(id))
    {
      r := FindByXPath(IdQuery(id), Some("id"), Some(id));
    }

    /** `find_by_value`: the `@value` query with provenance `value` when it
      matches anything, and otherwise the text-equality query with the default
      provenance, whose empty result is returned as it is. */
    method FindByValue(value: string) returns (r: ResultSet)
      ensures select(ValueQuery(value)) != [] ==>
                r == Classify(select(ValueQuery(value)), ValueQuery(value), Some("value"), Some(value))
      ensures select(ValueQuery(value)) == [] ==>
                r == Classify(select(TextEqualsQuery(value)), TextEqualsQuery(value), None, None)
    {
      var primary := FindByXPath(ValueQuery(value), Some("value"), Some(value));
      if primary.elements != [] {
        return primary;
      }
      r := FindByXPath(TextEqualsQuery(value), None, None);
    }

    /** `find_by_name`: every match as a control, with the xpath (not the name)
      as the query of its provenance. */
    function FindByName(name: string): (r: ResultSet)
      ensures r.findBy == "name" && r.query == NameQuery(name)
      ensures |r.elements| == |select(NameQuery(name))|
      ensures forall i :: 0 <= i < |r.elements| ==> r.elements[i] == Control(select(NameQuery(name))[i])
    {
      var matched := select(NameQuery(name));
      ResultSet(seq(|matched|, i requires 0 <= i < |matched| => Control(matched[i])), "name", NameQuery(name))
    }

    /** The error `.first` raises on an empty `find_by_name` result. */
    function NameMissing(name: string): Error
    {
      ElementDoesNotExist(Some(("name", NameQuery(name))))
    }

    // -------------------------------------------------------------------------
    // Filling.

    /** `find_by_name(name).first._control.value = value`. */
    method AssignFirstNamed(name: string, value: PyValue) returns (r: Outcome)
      modifies this`values
      ensures FindByName(name).elements == [] ==> r == Fail(NameMissing(name)) && values == old(values)
      ensures FindByName(name).elements != [] ==>
                r == Pass && values == old(values)[FindByName(name).elements[0].node.id := value]
    {
      var found := FindByName(name);
      if found.elements == [] {
        return Fail(NameMissing(name));
      }
      var control := found.elements[0].node;
      values := values[control.id := value];
      r := Pass;
    }

    /** `check`: the first control of that name gets the value `["checked"]`. */
    method Check(name: string) returns (r: Outcome)
      modifies this`values
      ensures FindByName(name).elements == [] ==> r == Fail(NameMissing(name)) && values == old(values)
      ensures FindByName(name).elements != [] ==>
                r == Pass
                && values == old(values)[FindByName(name).elements[0].node.id := PyList([PyStr("checked")])]
    {
      r := AssignFirstNamed(name, PyList([PyStr("checked")]));
    }

    /** `uncheck`: the first control of that name gets the value `[]`. */
    method Uncheck(name: string) returns (r: Outcome)
      modifies this`values
      ensures FindByName(name).elements == [] ==> r == Fail(NameMissing(name)) && values == old(values)
      ensures FindByName(name).elements != [] ==>
                r == Pass && values == old(values)[FindByName(name).elements[0].node.id := PyList([])]
    {
      r := AssignFirstNamed(name, PyList([]));
    }

    /** Driver-level `fill`: fill the first control of that name. */
    method Fill(name: string, value: PyValue) returns (r: Outcome)
      modifies this`forms, this`values
      ensures FindByName(name).elements == [] ==>
                r == Fail(NameMissing(name)) && forms == old(forms) && values == old(values)
      ensures FindByName(name).elements != [] ==>
                (r, forms, values) == FillControl(old(forms), old(values), FindByName(name).elements[0].node, value)
    {
      var found := FindByName(name);
      if found.elements == [] {
        return Fail(NameMissing(name));
      }
      var element := new ControlElement(found.elements[0].node, this);
      r := element.Fill(value);
    }

    /** The list `fill_form` searches in: the `form_id` element when given,
      else the `name` elements when given, else none. */
    function Scope(formId: Option<string>, name: Option<string>): (r: seq<Handle>)
      ensures formId.Some? ==> |r| == |select(IdQuery(formId.value))|
      ensures formId.Some? ==> forall i :: 0 <= i < |r| ==> r[i].node == select(IdQuery(formId.value))[i]
      ensures formId.None? && name.Some? ==> |r| == |select(NameQuery(name.value))|
      ensures formId.None? && name.Some? ==> forall i :: 0 <= i < |r| ==> r[i] == Control(select(NameQuery(name.value))[i])
      ensures formId.None? && name.None? ==> r == []
    {
      if formId.Some? then
        Classify(select(IdQuery(formId.value)), IdQuery(formId.value), Some("id"), Some(formId.value)).elements
      else if name.Some? then FindByName(name.value).elements
      else []
    }

    /** The control `fill_form` assigns for the field `name`: searched under the
      first element of a non-empty scope, else in the whole document. The
      scoped search reads the element's `_element`, which a control wrapper
      lacks: AttributeError. */
    function FieldTarget(scope: seq<Handle>, name: string): (r: Result<Node>)
      ensures scope == [] ==> (r.Success? <==> select(NameQuery(name)) != [])
      ensures scope == [] && r.Success? ==> r.value == select(NameQuery(name))[0]
      ensures scope == [] && r.Failure? ==> r.error == NameMissing(name)
      ensures scope != [] && scope[0].Control? ==> r == Failure(AttributeError("_element"))
      ensures scope != [] && !scope[0].Control? ==>
                (r.Success? <==> selectWithin(scope[0].node, NameSelector(name)) != [])
      ensures scope != [] && !scope[0].Control? && r.Success? ==>
                r.value == selectWithin(scope[0].node, NameSelector(name))[0]
      ensures scope != [] && !scope[0].Control? && r.Failure? ==> r.error == ElementDoesNotExist(None)
    {
      if scope != [] then
        if scope[0].Control? then Failure(AttributeError("_element"))
        else
          var found := selectWithin(scope[0].node, NameSelector(name));
          if found == [] then Failure(ElementDoesNotExist(None)) else Success(found[0])
      else
        var found := FindByName(name).elements;
        if found == [] then Failure(NameMissing(name)) else Success(found[0].node)
    }

    /** `fill_form` over the remaining fields: each found control gets the
      coerced value; a missing one aborts unless `ignoreMissing`; any other
      error aborts. */
    function FillFields(values: Store, scope: seq<Handle>, fields: seq<(string, PyValue)>, ignoreMissing: bool)
      : (r: (Outcome, Store))
      ensures ignoreMissing ==> !(r.0.Fail? && r.0.error.ElementDoesNotExist?)
      ensures values.Keys <= r.1.Keys
      decreases |fields|
    {
      if fields == [] then (Pass, values)
      else
        var (name, value) := fields[0];
        match FieldTarget(scope, name)
        case Success(control) =>
          FillFields(values[control.id := Coerce(Attr(control.attrs, "type"), value)], scope, fields[1..], ignoreMissing)
        case Failure(e) =>
          if e.ElementDoesNotExist? && ignoreMissing then FillFields(values, scope, fields[1..], ignoreMissing)
          else (Fail(e), values)
    }

    /** Fields are filled in order: filling `a + b` is filling `a`, then, if that
      passed, filling `b` from where `a` left the values. In particular the
      fields before a failing one stay set. */
    lemma {:induction false} FillFieldsAppend(values: Store, scope: seq<Handle>, a: seq<(string, PyValue)>,
                                              b: seq<(string, PyValue)>, ignoreMissing: bool)
      ensures var (ra, va) := FillFields(values, scope, a, ignoreMissing);
              FillFields(values, scope, a + b, ignoreMissing)
              == if ra == Pass then FillFields(va, scope, b, ignoreMissing) else (ra, va)
      decreases |a|
    {
      if a == [] {
        assert a + b == b;
      } else {
        assert (a + b)[0] == a[0];
        assert (a + b)[1..] == a[1..] + b;
        var (name, value) := a[0];
        match FieldTarget(scope, name)
        case Success(control) =>
          FillFieldsAppend(values[control.id := Coerce(Attr(control.attrs, "type"), value)], scope, a[1..], b, ignoreMissing);
        case Failure(e) =>
          if e.ElementDoesNotExist? && ignoreMissing {
            FillFieldsAppend(values, scope, a[1..], b, ignoreMissing);
          }
      }
    }

    /** Field `i` is the last of `fields` to find its control in `scope`, so
      its write is the one that stays. */
    predicate LastWrite(scope: seq<Handle>, fields: seq<(string, PyValue)>, i: int)
    {
      0 <= i < |fields|
      && FieldTarget(scope, fields[i].0).Success?
      && forall j :: i < j < |fields| && FieldTarget(scope, fields[j].0).Success? ==>
           FieldTarget(scope, fields[j].0).value.id != FieldTarget(scope, fields[i].0).value.id
    }

    /** Filling writes only the slots of the controls its fields find. */
    lemma {:induction false} FillFieldsFrame(values: Store, scope: seq<Handle>, fields: seq<(string, PyValue)>,
                                             ignoreMissing: bool, id: NodeId)
      requires forall j :: 0 <= j < |fields| && FieldTarget(scope, fields[j].0).Success? ==>
                 FieldTarget(scope, fields[j].0).value.id != id
      ensures id in FillFields(values, scope, fields, ignoreMissing).1 <==> id in values
      ensures id in values ==> FillFields(values, scope, fields, ignoreMissing).1[id] == values[id]
      decreases |fields|
    {
      if fields != [] {
        var (name, value) := fields[0];
        forall j | 0 <= j < |fields[1..]| && FieldTarget(scope, fields[1..][j].0).Success?
          ensures FieldTarget(scope, fields[1..][j].0).value.id != id
        {
          assert fields[1..][j] == fields[j + 1];
        }
        match FieldTarget(scope, name)
        case Success(control) =>
          FillFieldsFrame(values[control.id := Coerce(Attr(control.attrs, "type"), value)], scope, fields[1..], ignoreMissing, id);
        case Failure(e) =>
          FillFieldsFrame(values, scope, fields[1..], ignoreMissing, id);
      }
    }

    /** When every field is found, filling passes and each control that no later
      field writes again holds its field's coerced value. */
    lemma {:induction false} FoundFieldsSet(values: Store, scope: seq<Handle>, fields: seq<(string, PyValue)>,
                                            ignoreMissing: bool)
      requires forall i :: 0 <= i < |fields| ==> FieldTarget(scope, fields[i].0).Success?
      ensures FillFields(values, scope, fields, ignoreMissing).0 == Pass
      ensures forall i :: 0 <= i < |fields| && LastWrite(scope, fields, i) ==>
                var control := FieldTarget(scope, fields[i].0).value;
                control.id in FillFields(values, scope, fields, ignoreMissing).1
                && FillFields(values, scope, fields, ignoreMissing).1[control.id]
                   == Coerce(Attr(control.attrs, "type"), fields[i].1)
      decreases |fields|
    {
      if fields != [] {
        var (name, value) := fields[0];
        var control := FieldTarget(scope, name).value;
        var values' := values[control.id := Coerce(Attr(control.attrs, "type"), value)];
        var rest := fields[1..];
        forall i | 0 <= i < |rest|
          ensures FieldTarget(scope, rest[i].0).Success?
        {
          assert rest[i] == fields[i + 1];
        }
        FoundFieldsSet(values', scope, rest, ignoreMissing);
        assert FillFields(values, scope, fields, ignoreMissing) == FillFields(values', scope, rest, ignoreMissing);
        forall i | 0 <= i < |fields| && LastWrite(scope, fields, i)
          ensures var c := FieldTarget(scope, fields[i].0).value;
                  c.id in FillFields(values', scope, rest, ignoreMissing).1
                  && FillFields(values', scope, rest, ignoreMissing).1[c.id] == Coerce(Attr(c.attrs, "type"), fields[i].1)
        {
          if i == 0 {
            forall j | 0 <= j < |rest| && FieldTarget(scope, rest[j].0).Success?
              ensures FieldTarget(scope, rest[j].0).value.id != control.id
            {
              assert rest[j] == fields[j + 1];
            }
            FillFieldsFrame(values', scope, rest, ignoreMissing, control.id);
          } else {
            assert fields[i] == rest[i - 1];
            forall j | i - 1 < j < |rest|
              ensures FieldTarget(scope, rest[j].0).value.id != FieldTarget(scope, rest[i - 1].0).value.id
            {
              assert rest[j] == fields[j + 1];
            }
            assert LastWrite(scope, rest, i - 1);
          }
        }
      }
    }

    /** Without `ignoreMissing`, the first field whose control is missing ends
      `fill_form` with that error; every field before it stays set. */
    lemma MissingFieldStops(values: Store, scope: seq<Handle>, before: seq<(string, PyValue)>,
                            name: string, value: PyValue, after: seq<(string, PyValue)>)
      requires forall i :: 0 <= i < |before| ==> FieldTarget(scope, before[i].0).Success?
      requires FieldTarget(scope, name).Failure?
      ensures FillFields(values, scope, before + [(name, value)] + after, false)
              == (Fail(FieldTarget(scope, name).error), FillFields(values, scope, before, false).1)
      ensures forall i :: 0 <= i < |before| && LastWrite(scope, before, i) ==>
                var control := FieldTarget(scope, before[i].0).value;
                control.id in FillFields(values, scope, before + [(name, value)] + after, false).1
                && FillFields(values, scope, before + [(name, value)] + after, false).1[control.id]
                   == Coerce(Attr(control.attrs, "type"), before[i].1)
    {
      FoundFieldsSet(values, scope, before, false);
      assert before + [(name, value)] + after == before + ([(name, value)] + after);
      FillFieldsAppend(values, scope, before, [(name, value)] + after, false);
      assert ([(name, value)] + after)[0] == (name, value);
    }

    /** With `ignoreMissing`, a field whose control is missing is skipped: the
      fields around it are filled exactly as if it were not there. */
    lemma IgnoredFieldSkipped(values: Store, scope: seq<Handle>, before: seq<(string, PyValue)>,
                              name: string, value: PyValue, after: seq<(string, PyValue)>)
      requires FieldTarget(scope, name).Failure? && FieldTarget(scope, name).error.ElementDoesNotExist?
      ensures FillFields(values, scope, before + [(name, value)] + after, true)
              == FillFields(values, scope, before + after, true)
    {
      assert before + [(name, value)] + after == before + ([(name, value)] + after);
      FillFieldsAppend(values, scope, before, [(name, value)] + after, true);
      FillFieldsAppend(values, scope, before, after, true);
      assert ([(name, value)] + after)[0] == (name, value);
      assert ([(name, value)] + after)[1..] == after;
    }

    /** Scoping `fill_form` by `name` finds the scope with `find_by_name`, whose
      handles are controls: as soon as the name matches anything, the first
      field fails with AttributeError, which `ignoreMissing` does not catch. */
    lemma NameScopeFails(values: Store, name: string, fields: seq<(string, PyValue)>, ignoreMissing: bool)
      requires select(NameQuery(name)) != [] && fields != []
      ensures FillFields(values, Scope(None, Some(name)), fields, ignoreMissing) == (Fail(AttributeError("_element")), values)
    {
      assert Scope(None, Some(name))[0] == Control(select(NameQuery(name))[0]);
    }

    /** `fill_form`. */
    method FillForm(fieldValues: seq<(string, PyValue)>, formId: Option<string>, name: Option<string>,
                    ignoreMissing: bool) returns (r: Outcome)
      modifies this`values
      ensures (r, values) == FillFields(old(values), Scope(formId, name), fieldValues, ignoreMissing)
    {
      var scope: seq<Handle> := [];
      if name.Some? {
        scope := FindByName(name.value).elements;
      }
      if formId.Some? {
        var byId := FindById(formId.value);
        scope := byId.elements;
      }
      var i := 0;
      while i < |fieldValues|
        invariant 0 <= i <= |fieldValues|
        invariant scope == Scope(formId, name)
        invariant FillFields(values, scope, fieldValues[i..], ignoreMissing)
                  == FillFields(old(values), scope, fieldValues, ignoreMissing)
      {
        var (field, value) := fieldValues[i];
        assert fieldValues[i..][0] == (field, value) && fieldValues[i..][1..] == fieldValues[i + 1..];
        var target := FieldTarget(scope, field);
        if target.Success? {
          var control := target.value;
          values := values[control.id := Coerce(Attr(control.attrs, "type"), value)];
        } else if !(target.error.ElementDoesNotExist? && ignoreMissing) {
          return Fail(target.error);
        }
        i := i + 1;
      }
      r := Pass;
    }

    // -------------------------------------------------------------------------
    // Waiting for text.

    /** `wait_time or self.wait_time`. */
    function EffectiveWait(waitTime: Option<int>): (r: int)
      ensures waitTime == None || waitTime == Some(0) ==> r == this.waitTime
      ensures waitTime.Some? && waitTime.value != 0 ==> r == waitTime.value
    {
      if waitTime.Some? && waitTime.value != 0 then waitTime.value else this.waitTime
    }

    /** The `//body` matches of the document. */
    function Bodies(): seq<Handle>
    {
      Classify(select(TagQuery("body")), TagQuery("body"), Some("tag"), Some("body")).elements
    }

    /** What `_is_text_present` answers: false without a body, else whether the
      text occurs in the first body's text. */
    predicate BodyHasText(text: string)
      reads this
    {
      Bodies() != [] && Contains(HandleText(Bodies()[0], values), text)
    }

    /** `_is_text_present`: a missing body is "not loaded yet", not an error. */
    method ProbeText(text: string) returns (present: bool)
      ensures Bodies() == [] ==> !present
      ensures Bodies() != [] ==> (present <==> exists k: nat :: OccursAt(HandleText(Bodies()[0], values), text, k))
    {
      var body := FindByTag("body");
      if body.elements == [] {
        return false;
      }
      present := Contains(HandleText(body.elements[0], values), text);
      ContainsIff(HandleText(body.elements[0], values), text);
    }

    /** `is_text_present`: poll until the deadline `clock(0) + wait`; the
      document does not change while polling, so the answer is true exactly
      when the first deadline check passes and the text is there. */
    method IsTextPresent(text: string, waitTime: Option<int>, clock: nat -> int) returns (present: bool)
      requires Monotone(clock)
      ensures present <==> clock(1) < clock(0) + EffectiveWait(waitTime) && BodyHasText(text)
    {
      var end := clock(0) + EffectiveWait(waitTime);
      var k: nat := 1;
      while clock(k) < end
        invariant k >= 1
        invariant k > 1 ==> clock(1) < end && !BodyHasText(text)
        decreases end - clock(k)
      {
        var hit := ProbeText(text);
        if Bodies() != [] {
          ContainsIff(HandleText(Bodies()[0], values), text);
        }
        if hit {
          return true;
        }
        assert clock(k) < clock(k + 1);
        k := k + 1;
      }
      present := false;
    }

    /** `is_text_not_present`, the dual poll. */
    method IsTextNotPresent(text: string, waitTime: Option<int>, clock: nat -> int) returns (absent: bool)
      requires Monotone(clock)
      ensures absent <==> clock(1) < clock(0) + EffectiveWait(waitTime) && !BodyHasText(text)
    {
      var end := clock(0) + EffectiveWait(waitTime);
      var k: nat := 1;
      while clock(k) < end
        invariant k >= 1
        invariant k > 1 ==> clock(1) < end && BodyHasText(text)
        decreases end - clock(k)
      {
        var hit := ProbeText(text);
        if Bodies() != [] {
          ContainsIff(HandleText(Bodies()[0], values), text);
        }
        if !hit {
          return true;
        }
        assert clock(k) < clock(k + 1);
        k := k + 1;
      }
      absent := false;
    }
  }

  /** A StripFrom over no keys removes nothing. */
  lemma {:induction false} StripNothing(inputs: seq<Input>, seen: set<string>)
    ensures StripFrom(inputs, {}, seen) == inputs
    decreases |inputs|
  {
    if inputs != [] {
      StripNothing(inputs[1..], seen + {inputs[0].name});
    }
  }

  /** LxmlControlElement: a control of the document bound to its driver. */
  class ControlElement {
    const control: Node
    const parent: LxmlDriver

    constructor (control: Node, parent: LxmlDriver)
      ensures this.control == control && this.parent == parent
    {
      this.control := control;
      this.parent := parent;
    }

    /** `_get_parent_form`: the enclosing form, through the registry, where the
      first form stored under a name wins. */
    method GetParentForm() returns (r: Result<Form>)
      modifies parent`forms
      ensures control.form.None? ==> r == Failure(StopIteration) && parent.forms == old(parent.forms)
      ensures control.form.Some? ==>
                parent.forms == Register(old(parent.forms), control.form.value).0
                && r == Success(Register(old(parent.forms), control.form.value).1)
    {
      match control.form {
        case None =>
          return Failure(StopIteration);
        case Some(f) =>
          var (registry, form) := Register(parent.forms, f);
          parent.forms := registry;
          r := Success(form);
      }
    }

    /** `fill`: overwrite the form field named by this control's name. */
    method Fill(value: PyValue) returns (r: Outcome)
      modifies parent`forms, parent`values
      ensures (r, parent.forms, parent.values) == FillControl(old(parent.forms), old(parent.values), control, value)
    {
      var found := GetParentForm();
      if found.Failure? {
        return Fail(found.error);
      }
      var form := found.value;
      if "name" !in control.attrs {
        return Fail(KeyError("name"));
      }
      var written := SetField(parent.values, form, control.attrs["name"], value);
      if written.Failure? {
        return Fail(written.error);
      }
      parent.values := written.value;
      r := Pass;
    }

    /** `click`: register the form; a submit control with a non-empty name
      appends exactly one hidden input carrying its name and its value (or "");
      the form is then what goes to `submit_data`. */
    method Click() returns (r: Result<Form>)
      modifies parent`forms, parent`values, parent`created
      ensures control.form.None? ==>
                r == Failure(StopIteration) && parent.forms == old(parent.forms)
                && parent.values == old(parent.values) && parent.created == old(parent.created)
      ensures control.form.Some? && !SubmitsName(control) ==>
                r == Success(Register(old(parent.forms), control.form.value).1)
                && parent.forms == Register(old(parent.forms), control.form.value).0
                && parent.values == old(parent.values) && parent.created == old(parent.created)
      ensures control.form.Some? && SubmitsName(control) ==>
                var form := Register(old(parent.forms), control.form.value).1;
                var hidden := HiddenInput(control, old(parent.created));
                var appended := form.(inputs := form.inputs + [hidden]);
                r == Success(appended)
                && parent.forms == Register(old(parent.forms), control.form.value).0[control.form.value.name := appended]
                && parent.values == old(parent.values)[hidden.node := PyStr(Get(control.attrs, "value", ""))]
                && parent.created == old(parent.created) + 1
    {
      var found := GetParentForm();
      if found.Failure? {
        return found;
      }
      var form := found.value;
      if Attr(control.attrs, "type") == Some("submit") {
        if Get(control.attrs, "name", "") != "" {
          var hidden := HiddenInput(control, parent.created);
          parent.created := parent.created + 1;
          parent.values := parent.values[hidden.node := PyStr(Get(control.attrs, "value", ""))];
          form := form.(inputs := form.inputs + [hidden]);
          parent.forms := parent.forms[control.form.value.name := form];
        }
      }
      r := Success(form);
    }
  }
}
