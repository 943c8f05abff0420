/** The parsed document as the static driver sees it: elements, forms and their
    inputs, the classification of matched elements into link, control and
    generic handles, result lists with their provenance, the value getters of
    controls and options, the `fill_form` coercion table, the form registry and
    the serialisation of a form into a request payload. */
module Document {
  import opened Values

  /** The identity of an element: one parsed from the markup, or one the driver
      created itself (the hidden input a submit button's click appends). */
  datatype NodeId = Parsed(n: nat) | Created(n: nat)

  /** What lxml's `FormElement._name()` returns: the key of the form registry. */
  type FormId = string

  /** A named `input`, `select` or `textarea` of a form (an entry of lxml's
      `form.inputs`): its element, its name, what `getattr(input, "type", "")`
      gives, and whether it is a direct child of the form element (only those
      can be removed with `form.remove`). */
  datatype Input = Input(node: NodeId, name: string, kind: string, child: bool)

  /** A `<form>` element: its registry key, its attributes and its named inputs
      in document order. */
  datatype Form = Form(name: FormId, attrs: map<string, string>, inputs: seq<Input>)

  /** An element of the document: its identity, tag, attributes, `.text` (the
      text before its first child), `text_content()` (all its text) and the
      nearest enclosing `<form>`, if any. */
  datatype Node = Node(
    id: NodeId,
    tag: string,
    attrs: map<string, string>,
    text: Option<string>,
    textContent: string,
    form: Option<Form>)

  /** The `.value` slot of every element that has one, by identity. Form fields
      and the controls found by queries read and write the same slots. */
  type Store = map<NodeId, PyValue>

  // ---------------------------------------------------------------------------
  // Classification of matched elements (`_element_is_link`, `_element_is_control`).

  /** `_element_is_link`: only an `a` element is a link. The ensures gives two
      examples that are not: an `area` or a `link` element. */
  predicate IsLink(n: Node)
    ensures n.tag == "area" || n.tag == "link" ==> !IsLink(n)
  {
    n.tag == "a"
  }

  /** `_element_is_control`: a button, input or textarea, which is never a link.
      The ensures gives an example that is not a control: a `select`. */
  predicate IsControl(n: Node)
    ensures IsControl(n) ==> !IsLink(n)
    ensures n.tag == "select" ==> !IsControl(n)
  {
    n.tag in ["button", "input", "textarea"]
  }

  /** The element wrapper a query result holds: LxmlLinkElement,
      LxmlControlElement or LxmlElement. */
  datatype Handle = Link(node: Node) | Control(node: Node) | Generic(node: Node)

  /** An ElementList: the handles in match order and the `(find_by, query)` that
      produced them. */
  datatype ResultSet = ResultSet(elements: seq<Handle>, findBy: string, query: string)

  predicate HasLink(nodes: seq<Node>)
  {
    exists i :: 0 <= i < |nodes| && IsLink(nodes[i])
  }

  function AsLinks(nodes: seq<Node>): (r: seq<Handle>)
    ensures |r| == |nodes|
    ensures forall i :: 0 <= i < |nodes| ==> r[i] == Link(nodes[i])
  {
    seq(|nodes|, i requires 0 <= i < |nodes| => Link(nodes[i]))
  }

  function Wrap(n: Node): Handle
  {
    if IsControl(n) then Control(n) else Generic(n)
  }

  /** What `find_by_xpath` returns for the matched `nodes`: as soon as one match
      is a link, the whole result is re-resolved as links with provenance
      `("xpath", xpath)`; otherwise each match is a control or a generic element
      and the provenance is `(original_find or "xpath", original_query or xpath)`. */
  function Classify(nodes: seq<Node>, xpath: string, originalFind: Option<string>,
                    originalQuery: Option<string>): (r: ResultSet)
    ensures |r.elements| == |nodes|
    ensures forall i :: 0 <= i < |nodes| ==> r.elements[i].node == nodes[i]
    ensures forall i :: 0 <= i < |nodes| ==> (r.elements[i].Link? <==> HasLink(nodes))
    ensures forall i :: 0 <= i < |nodes| ==>
              (r.elements[i].Control? <==> !HasLink(nodes) && IsControl(nodes[i]))
    ensures HasLink(nodes) ==> r.findBy == "xpath" && r.query == xpath
    ensures !HasLink(nodes) ==>
              r.findBy == OrElse(originalFind, "xpath") && r.query == OrElse(originalQuery, xpath)
  {
    if HasLink(nodes) then ResultSet(AsLinks(nodes), "xpath", xpath)
    else
      ResultSet(seq(|nodes|, i requires 0 <= i < |nodes| => Wrap(nodes[i])),
                OrElse(originalFind, "xpath"), OrElse(originalQuery, xpath))
  }

  // The queries the driver builds.

  function TagQuery(tag: string): string { "//" + tag }

  function IdQuery(id: string): string { "//*[@id=\"" + id + "\"][1]" }

  function NameQuery(name: string): string { "//*[@name=\"" + name + "\"]" }

  function ValueQuery(value: string): string { "//*[@value=\"" + value + "\"]" }

  function TextEqualsQuery(value: string): string { "//*[.=\"" + value + "\"]" }

  /** The CSS selector an element uses for its scoped `find_by_name`. */
  function NameSelector(name: string): string { "[name=\"" + name + "\"]" }

  // ---------------------------------------------------------------------------
  // Getters of controls and options.

  function Stored(values: Store, id: NodeId): PyValue
  {
    if id in values then values[id] else PyNone
  }

  /** The lxml element classes that have a `.value` property. */
  predicate HasValueSlot(tag: string) { tag in ["input", "select", "textarea"] }

  /** `LxmlControlElement.value`: the element's value, or its `.text` when the
      element has no value (the AttributeError branch). */
  function ControlValue(n: Node, values: Store): (r: PyValue)
    ensures HasValueSlot(n.tag) && n.id in values ==> r == values[n.id]
    ensures HasValueSlot(n.tag) && n.id !in values ==> r == PyNone
    ensures !HasValueSlot(n.tag) && n.text.Some? ==> r == PyStr(n.text.value)
    ensures !HasValueSlot(n.tag) && n.text.None? ==> r == PyNone
  {
    if HasValueSlot(n.tag) then Stored(values, n.id)
    else match n.text case Some(t) => PyStr(t) case None => PyNone
  }

  /** `LxmlControlElement.checked`: the truthiness of the element's `.value`.
      Unlike `value` there is no fallback: an element without a value slot
      raises AttributeError. */
  function Checked(n: Node, values: Store): (r: Result<bool>)
    ensures HasValueSlot(n.tag) ==> r.Success? && (r.value <==> Truthy(ControlValue(n, values)))
    ensures !HasValueSlot(n.tag) ==> r == Failure(AttributeError("value"))
  {
    if HasValueSlot(n.tag) then Success(Truthy(Stored(values, n.id)))
    else Failure(AttributeError("value"))
  }

  /** `check` and `uncheck` assign `["checked"]` and `[]`: a control with a value
      slot then reads as checked, respectively unchecked; any other element
      still has no `checked`. */
  lemma CheckedAfterAssignment(n: Node, values: Store)
    ensures HasValueSlot(n.tag) ==> Checked(n, values[n.id := PyList([PyStr("checked")])]) == Success(true)
    ensures HasValueSlot(n.tag) ==> Checked(n, values[n.id := PyList([])]) == Success(false)
    ensures !HasValueSlot(n.tag) ==> Checked(n, values[n.id := PyList([PyStr("checked")])]).Failure?
  {
  }

  /** The `.text` of a handle: `text_content()` for links and generic
      elements, the control's value for controls. A control value that is not a
      string reads as the empty string. */
  function HandleText(h: Handle, values: Store): string
  {
    match h
    case Control(n) => (match ControlValue(n, values) case PyStr(s) => s case _ => "")
    case _ => h.node.textContent
  }

  /** `LxmlOptionElement.selected`: the option's `value` attribute (KeyError
      when it has none) equals the value of its `<select>`. */
  function OptionSelected(option: Node, select: Node, values: Store): (r: Result<bool>)
    ensures "value" !in option.attrs ==> r == Failure(KeyError("value"))
    ensures "value" in option.attrs ==>
              r.Success? && (r.value <==> ControlValue(select, values) == PyStr(option.attrs["value"]))
  {
    if "value" in option.attrs then Success(ControlValue(select, values) == PyStr(option.attrs["value"]))
    else Failure(KeyError("value"))
  }

  // ---------------------------------------------------------------------------
  // The value coercion of `fill_form`.

  /** The value `fill_form` assigns to a control whose `type` attribute is
      `controlType`, for the caller's `value`: the Python condition is kept as written. */
  function Coerce(controlType: Option<string>, value: PyValue): (r: PyValue)
    ensures controlType == Some("checkbox") && Truthy(value) ==> r == value
    ensures controlType == Some("checkbox") && !Truthy(value) ==> r == PyList([])
    ensures controlType == Some("checkbox") ==> (Truthy(r) <==> Truthy(value))
    ensures controlType == Some("select") && value.PyList? ==> r == value
    ensures controlType == Some("select") && !value.PyList? ==> r == PyList([value])
    ensures controlType != Some("checkbox") && controlType != Some("select") ==> r == value
  {
    if (controlType == Some("checkbox") && Truthy(value))
       || (controlType != Some("checkbox") && controlType == Some("select") && value.PyList?)
       || (controlType !in [Some("checkbox"), Some("select")])
    then value
    else if controlType == Some("checkbox") then PyList([])
    else PyList([value])
  }

  // ---------------------------------------------------------------------------
  // Inputs of a form.

  /** `form.inputs.keys()`: the distinct input names in document order. */
  function Names(inputs: seq<Input>): (r: seq<string>)
    ensures forall k :: k in r <==> exists i :: 0 <= i < |inputs| && inputs[i].name == k
    ensures forall i, j :: 0 <= i < j < |r| ==> r[i] != r[j]
  {
    if inputs == [] then []
    else
      var r := Names(inputs[..|inputs| - 1]);
      var n := inputs[|inputs| - 1].name;
      if n in r then r else r + [n]
  }

  /** `form.inputs[name]`: the first input with that name. */
  function Lookup(inputs: seq<Input>, name: string): (r: Option<Input>)
    ensures r.None? <==> forall i :: 0 <= i < |inputs| ==> inputs[i].name != name
    ensures r.Some? ==> r.value.name == name && r.value in inputs
    ensures r.Some? ==> exists i :: 0 <= i < |inputs| && inputs[i] == r.value
                          && forall j :: 0 <= j < i ==> inputs[j].name != name
  {
    if inputs == [] then None
    else if inputs[0].name == name then Some(inputs[0])
    else Lookup(inputs[1..], name)
  }

  /** `form.fields[name] = value`: writes the slot of the first input with that
      name; KeyError when the form has none. */
  function SetField(values: Store, form: Form, name: string, value: PyValue): (r: Result<Store>)
    ensures Lookup(form.inputs, name).None? ==> r == Failure(KeyError(name))
    ensures Lookup(form.inputs, name).Some? ==>
              r == Success(values[Lookup(form.inputs, name).value.node := value])
  {
    match Lookup(form.inputs, name)
    case None => Failure(KeyError(name))
    case Some(input) => Success(values[input.node := value])
  }

  /** The field the fill wrote now reads back as the filled value, and filling
      the same field twice with the same value is the same as filling it once. */
  lemma SetFieldReadBack(values: Store, form: Form, name: string, value: PyValue)
    requires SetField(values, form, name, value).Success?
    ensures var after := SetField(values, form, name, value).value;
            FieldValue(form.inputs, after, name) == value
            && SetField(after, form, name, value) == Success(after)
  {
    var node := Lookup(form.inputs, name).value.node;
    var after := values[node := value];
    assert after[node := value] == after;
  }

  /** Round trip of `fill`: when the control is the form's first input of its
      name and has a value slot, reading its `value` gives the filled value. */
  lemma FillThenValue(values: Store, form: Form, control: Node, value: PyValue)
    requires "name" in control.attrs && HasValueSlot(control.tag)
    requires Lookup(form.inputs, control.attrs["name"]).Some?
    requires Lookup(form.inputs, control.attrs["name"]).value.node == control.id
    ensures SetField(values, form, control.attrs["name"], value).Success?
    ensures ControlValue(control, SetField(values, form, control.attrs["name"], value).value) == value
  {
  }

  // ---------------------------------------------------------------------------
  // The form registry.

  /** `_forms.setdefault(form._name(), form)`: the registry afterwards and the
      form it returns. An entry already stored is returned and never replaced. */
  function Register(forms: map<FormId, Form>, form: Form): (r: (map<FormId, Form>, Form))
    ensures r.0.Keys == forms.Keys + {form.name}
    ensures r.0[form.name] == r.1
    ensures forall k :: k in forms ==> r.0[k] == forms[k]
    ensures form.name !in forms ==> r.1 == form
  {
    if form.name in forms then (forms, forms[form.name]) else (forms[form.name := form], form)
  }

  /** The first form stored under a name wins: registering a second form with the
      same name returns the first one and leaves the registry as it was. */
  lemma {:induction false} RegisterFirstWins(forms: map<FormId, Form>, first: Form, second: Form)
    requires first.name == second.name
    ensures var (after, f) := Register(forms, first);
            Register(after, second) == (after, f)
  {
  }

  // ---------------------------------------------------------------------------
  // Serialisation, step 1: removing the submit inputs.

  /** Python's loop over `form.inputs.keys()` that removes submit inputs, for
      the keys in `keys`: the first input of each such name (one whose name is
      not in `seen`) is dropped when it is a submit input that is a direct child
      of the form; a nested one stays (the ValueError is swallowed). */
  function StripFrom(inputs: seq<Input>, keys: set<string>, seen: set<string>): seq<Input>
  {
    if inputs == [] then []
    else
      var x := inputs[0];
      var drop := x.name in keys && x.name !in seen && x.kind == "submit" && x.child;
      (if drop then [] else [x]) + StripFrom(inputs[1..], keys, seen + {x.name})
  }

  function KeySet(keys: seq<string>): set<string>
  {
    set k | k in keys
  }

  /** The inputs of a form once `serialize` has removed its submit inputs. */
  function Stripped(inputs: seq<Input>): seq<Input>
  {
    StripFrom(inputs, KeySet(Names(inputs)), {})
  }

  /** The form without its first input named `key`. */
  function Without(inputs: seq<Input>, key: string): (r: seq<Input>)
  {
    if inputs == [] then []
    else if inputs[0].name == key then inputs[1..]
    else [inputs[0]] + Without(inputs[1..], key)
  }

  /** One turn of the removal loop for `key`. */
  function StripKey(inputs: seq<Input>, key: string): seq<Input>
  {
    match Lookup(inputs, key)
    case Some(input) => if input.kind == "submit" && input.child then Without(inputs, key) else inputs
    case None => inputs
  }

  lemma StripKeyCons(x: Input, rest: seq<Input>, key: string)
    requires x.name != key
    ensures StripKey([x] + rest, key) == [x] + StripKey(rest, key)
  {
    assert ([x] + rest)[0] == x;
    assert ([x] + rest)[1..] == rest;
  }

  /** A key already seen plays no part in the removal. */
  lemma {:induction false} StripSeen(inputs: seq<Input>, keys: set<string>, seen: set<string>, key: string)
    requires key in seen
    ensures StripFrom(inputs, keys + {key}, seen) == StripFrom(inputs, keys, seen)
    decreases |inputs|
  {
    if inputs != [] {
      StripSeen(inputs[1..], keys, seen + {inputs[0].name}, key);
    }
  }

  /** Handling one more key in the loop is one `StripKey` turn on what the
      earlier keys left. */
  lemma {:induction false} StripStep(inputs: seq<Input>, keys: set<string>, seen: set<string>, key: string)
    requires key !in keys && key !in seen
    ensures StripFrom(inputs, keys + {key}, seen) == StripKey(StripFrom(inputs, keys, seen), key)
    decreases |inputs|
  {
    if inputs != [] {
      var x, rest := inputs[0], inputs[1..];
      var seen' := seen + {x.name};
      if x.name == key {
        StripStepHere(inputs, keys, seen, key);
      } else {
        StripStep(rest, keys, seen', key);
        StripStepPast(inputs, keys, seen, key);
      }
    }
  }

  /** `StripStep` when the first input carries the key. */
  lemma StripStepHere(inputs: seq<Input>, keys: set<string>, seen: set<string>, key: string)
    requires key !in keys && key !in seen
    requires inputs != [] && inputs[0].name == key
    ensures StripFrom(inputs, keys + {key}, seen) == StripKey(StripFrom(inputs, keys, seen), key)
  {
    var x, rest := inputs[0], inputs[1..];
    var seen' := seen + {key};
    var tail := StripFrom(rest, keys, seen');
    StripSeen(rest, keys, seen', key);
    var cur := [x] + tail;
    assert StripFrom(inputs, keys, seen) == cur;
    assert cur[0] == x && cur[1..] == tail;
    assert Lookup(cur, key) == Some(x);
  }

  /** `StripStep` when the first input carries another name, given the step for
      the rest. */
  lemma StripStepPast(inputs: seq<Input>, keys: set<string>, seen: set<string>, key: string)
    requires key !in keys && key !in seen
    requires inputs != [] && inputs[0].name != key
    requires StripFrom(inputs[1..], keys + {key}, seen + {inputs[0].name})
             == StripKey(StripFrom(inputs[1..], keys, seen + {inputs[0].name}), key)
    ensures StripFrom(inputs, keys + {key}, seen) == StripKey(StripFrom(inputs, keys, seen), key)
  {
    var x, rest := inputs[0], inputs[1..];
    var tail := StripFrom(rest, keys, seen + {x.name});
    var drop := x.name in keys && x.name !in seen && x.kind == "submit" && x.child;
    assert drop == (x.name in keys + {key} && x.name !in seen && x.kind == "submit" && x.child);
    if drop {
      assert StripFrom(inputs, keys, seen) == tail;
    } else {
      assert StripFrom(inputs, keys, seen) == [x] + tail;
      StripKeyCons(x, tail, key);
    }
  }

  /** What removal keeps: nothing new, and every input that is not a submit
      input directly under the form. */
  lemma {:induction false} StripKeeps(inputs: seq<Input>, keys: set<string>, seen: set<string>)
    ensures forall x :: x in StripFrom(inputs, keys, seen) ==> x in inputs
    ensures forall x :: x in inputs && !(x.kind == "submit" && x.child) ==> x in StripFrom(inputs, keys, seen)
    decreases |inputs|
  {
    if inputs != [] {
      StripKeeps(inputs[1..], keys, seen + {inputs[0].name});
      assert forall x :: x in inputs ==> x == inputs[0] || x in inputs[1..];
    }
  }

  predicate DistinctNames(inputs: seq<Input>)
  {
    forall i, j :: 0 <= i < j < |inputs| ==> inputs[i].name != inputs[j].name
  }

  /** The inputs that are not submit inputs directly under the form. */
  function NonSubmits(inputs: seq<Input>): seq<Input>
  {
    if inputs == [] then []
    else
      (if inputs[0].kind == "submit" && inputs[0].child then [] else [inputs[0]])
      + NonSubmits(inputs[1..])
  }

  lemma {:induction false} StripDistinct(inputs: seq<Input>, keys: set<string>, seen: set<string>)
    requires DistinctNames(inputs)
    requires forall i :: 0 <= i < |inputs| ==> inputs[i].name in keys && inputs[i].name !in seen
    ensures StripFrom(inputs, keys, seen) == NonSubmits(inputs)
    decreases |inputs|
  {
    if inputs != [] {
      var rest := inputs[1..];
      assert forall i :: 0 <= i < |rest| ==> rest[i] == inputs[i + 1];
      StripDistinct(rest, keys, seen + {inputs[0].name});
    }
  }

  /** When no two inputs share a name, serialisation removes exactly the submit
      inputs that are direct children of the form. */
  lemma StrippedDistinct(inputs: seq<Input>)
    requires DistinctNames(inputs)
    ensures Stripped(inputs) == NonSubmits(inputs)
  {
    StripDistinct(inputs, KeySet(Names(inputs)), {});
  }

  /** Only the first input of each name is examined: of two submit inputs
      sharing a name, a first one directly under the form is removed and the
      second stays; a nested first one stays too (its removal raises and is
      swallowed). */
  lemma SharedSubmitStripped(first: Input, second: Input)
    requires first.name == second.name && first.kind == "submit"
    ensures Stripped([first, second]) == if first.child then [second] else [first, second]
  {
    var both := [first, second];
    var keys := KeySet(Names(both));
    assert both[0].name in Names(both);
    assert both[1..] == [second] && [second][1..] == [];
    assert StripFrom([second], keys, {first.name}) == [second];
    assert {} + {first.name} == {first.name};
    assert StripFrom(both, keys, {}) == (if first.child then [] else [first]) + [second];
  }

  /** The payload of inputs that all carry the name of the first, `x`: that
      name alone when its field is not None, holding `x`'s value. */
  lemma SingleNamePayload(inputs: seq<Input>, x: Input, values: Store)
    requires inputs != [] && inputs[0] == x
    requires forall i :: 0 <= i < |inputs| ==> inputs[i].name == x.name
    ensures Payload(inputs, values).Keys == if Stored(values, x.node) == PyNone then {} else {x.name}
    ensures Stored(values, x.node) != PyNone ==>
              Payload(inputs, values)[x.name]
              == if x.kind == "file" then Opened(AsData(Stored(values, x.node)))
                 else Plain(AsData(Stored(values, x.node)))
  {
    PayloadSpec(inputs, values);
    assert inputs[0].name == x.name;
    assert forall k :: k in Names(inputs) <==> k == x.name;
    assert Lookup(inputs, x.name) == Some(x);
  }

  /** Of two submit inputs that share a name, a first one directly under the
      form is removed and the second's value is submitted; a nested first one
      stays, and its value is submitted. */
  lemma SharedSubmitNameSurvives(first: Input, second: Input, values: Store)
    requires first.name == second.name && first.kind == "submit"
    ensures first.child ==> Stripped([first, second]) == [second]
    ensures !first.child ==> Stripped([first, second]) == [first, second]
    ensures first.child ==> Payload(Stripped([first, second]), values).Keys
                            == if Stored(values, second.node) == PyNone then {} else {second.name}
    ensures first.child && Stored(values, second.node) != PyNone ==>
              Payload(Stripped([first, second]), values)[second.name]
              == if second.kind == "file" then Opened(AsData(Stored(values, second.node)))
                 else Plain(AsData(Stored(values, second.node)))
    ensures !first.child ==> Payload(Stripped([first, second]), values).Keys
                             == if Stored(values, first.node) == PyNone then {} else {first.name}
    ensures !first.child && Stored(values, first.node) != PyNone ==>
              Payload(Stripped([first, second]), values)[first.name] == Plain(AsData(Stored(values, first.node)))
  {
    SharedSubmitStripped(first, second);
    if first.child {
      SingleNamePayload([second], second, values);
    } else {
      SingleNamePayload([first, second], first, values);
    }
  }

  /** Serialising a second time strips again: when both inputs of a shared name
      are submit inputs directly under the form, the first serialisation keeps
      the second and submits its value, the next one removes it as well. */
  lemma ResubmitStripsAgain(first: Input, second: Input, values: Store)
    requires first.name == second.name && first.kind == "submit" && first.child
    requires second.kind == "submit" && second.child
    ensures Stripped([first, second]) == [second]
    ensures Stripped(Stripped([first, second])) == []
    ensures Stored(values, second.node) != PyNone ==>
              Payload(Stripped([first, second]), values) != Payload(Stripped(Stripped([first, second])), values)
  {
    SharedSubmitNameSurvives(first, second, values);
    assert [second][0].name in Names([second]);
    assert [second][1..] == [];
    var keys := KeySet(Names([second]));
    assert second.name in keys;
    assert StripFrom([second], keys, {}) == [] + StripFrom([], keys, {second.name});
    assert Names([]) == [] && Fields([], values) == [];
    assert Payload([], values) == map[];
  }

  /** What `NonSubmits` keeps comes from its input. */
  lemma {:induction false} NonSubmitsFrom(inputs: seq<Input>)
    ensures forall x :: x in NonSubmits(inputs) ==> x in inputs
    decreases |inputs|
  {
    if inputs != [] {
      NonSubmitsFrom(inputs[1..]);
      assert forall x :: x in inputs[1..] ==> x in inputs;
    }
  }

  /** `NonSubmits` keeps distinct names distinct. */
  lemma {:induction false} NonSubmitsDistinct(inputs: seq<Input>)
    requires DistinctNames(inputs)
    ensures DistinctNames(NonSubmits(inputs))
    decreases |inputs|
  {
    if inputs != [] {
      var h, rest := inputs[0], inputs[1..];
      assert forall i, j :: 0 <= i < j < |rest| ==> rest[i] == inputs[i + 1] && rest[j] == inputs[j + 1];
      NonSubmitsDistinct(rest);
      NonSubmitsFrom(rest);
      var tail := NonSubmits(rest);
      if !(h.kind == "submit" && h.child) {
        var kept := [h] + tail;
        forall x | x in tail
          ensures x.name != h.name
        {
          var k :| 0 <= k < |rest| && rest[k] == x;
          assert inputs[k + 1] == x;
        }
        forall i, j | 0 <= i < j < |kept|
          ensures kept[i].name != kept[j].name
        {
          assert kept[j] == tail[j - 1];
          if i > 0 {
            assert kept[i] == tail[i - 1];
          }
        }
      } else {
        assert NonSubmits(inputs) == tail;
      }
    }
  }

  /** A second `NonSubmits` pass changes nothing. */
  lemma {:induction false} NonSubmitsTwice(inputs: seq<Input>)
    ensures NonSubmits(NonSubmits(inputs)) == NonSubmits(inputs)
    decreases |inputs|
  {
    if inputs != [] {
      var h, rest := inputs[0], inputs[1..];
      NonSubmitsTwice(rest);
      var tail := NonSubmits(rest);
      if !(h.kind == "submit" && h.child) {
        var kept := [h] + tail;
        assert kept[0] == h && kept[1..] == tail;
      } else {
        assert NonSubmits(inputs) == tail;
      }
    }
  }

  /** When no two inputs share a name, serialising an already serialised form
      removes nothing more. */
  lemma StrippedIdempotent(inputs: seq<Input>)
    requires DistinctNames(inputs)
    ensures Stripped(Stripped(inputs)) == Stripped(inputs)
  {
    StrippedDistinct(inputs);
    NonSubmitsDistinct(inputs);
    NonSubmitsTwice(inputs);
    StrippedDistinct(NonSubmits(inputs));
  }

  // ---------------------------------------------------------------------------
  // Serialisation, steps 2 and 3: the payload.

  /** A payload value: a plain value, or a file handle opened on the value of a
      file input (`open(data[key], "rb")`). */
  datatype Datum = Plain(value: PyValue) | Opened(path: PyValue)

  /** `form.fields[key]`: the value of the first input named `key`. */
  function FieldValue(inputs: seq<Input>, values: Store, key: string): PyValue
  {
    match Lookup(inputs, key)
    case Some(input) => Stored(values, input.node)
    case None => PyNone
  }

  /** `form.fields.items()`. */
  function Fields(inputs: seq<Input>, values: Store): (r: seq<(string, PyValue)>)
    ensures |r| == |Names(inputs)|
    ensures forall i :: 0 <= i < |r| ==> r[i].0 == Names(inputs)[i]
    ensures forall i :: 0 <= i < |r| ==> r[i].1 == FieldValue(inputs, values, r[i].0)
  {
    var keys := Names(inputs);
    seq(|keys|, i requires 0 <= i < |keys| => (keys[i], FieldValue(inputs, values, keys[i])))
  }

  /** `list(v)` for a multi-select value, `v` otherwise. */
  function AsData(v: PyValue): PyValue
  {
    match v
    case PyOptions(selected) => PyList(seq(|selected|, i requires 0 <= i < |selected| => PyStr(selected[i])))
    case _ => v
  }

  /** The loop over the fields: None values are skipped. */
  function Collect(fields: seq<(string, PyValue)>): map<string, Datum>
  {
    if fields == [] then map[]
    else
      var m := Collect(fields[..|fields| - 1]);
      var (k, v) := fields[|fields| - 1];
      if v == PyNone then m else m[k := Plain(AsData(v))]
  }

  predicate DistinctKeys(fields: seq<(string, PyValue)>)
  {
    forall i, j :: 0 <= i < j < |fields| ==> fields[i].0 != fields[j].0
  }

  /** The collected payload has a key exactly for each field whose value is not
      None, holding that value (a multi-select turned into a list). */
  lemma {:induction false} CollectSpec(fields: seq<(string, PyValue)>)
    requires DistinctKeys(fields)
    ensures forall k :: k in Collect(fields) <==>
              exists j :: 0 <= j < |fields| && fields[j].0 == k && fields[j].1 != PyNone
    ensures forall j :: 0 <= j < |fields| && fields[j].1 != PyNone ==>
              Collect(fields)[fields[j].0] == Plain(AsData(fields[j].1))
    decreases |fields|
  {
    if fields != [] {
      var pre := fields[..|fields| - 1];
      assert forall j :: 0 <= j < |pre| ==> pre[j] == fields[j];
      CollectSpec(pre);
    }
  }

  predicate IsFileInput(inputs: seq<Input>, key: string)
  {
    match Lookup(inputs, key)
    case Some(input) => input.kind == "file"
    case None => false
  }

  function OpenFile(d: Datum): Datum
  {
    match d
    case Plain(v) => Opened(v)
    case Opened(_) => d
  }

  /** The loop over `form.inputs.keys()` that opens file inputs already in the
      payload, for the keys in `keys`. */
  function OpenFiles(data: map<string, Datum>, keys: seq<string>, inputs: seq<Input>): map<string, Datum>
  {
    if keys == [] then data
    else
      var d := OpenFiles(data, keys[..|keys| - 1], inputs);
      var k := keys[|keys| - 1];
      if IsFileInput(inputs, k) && k in d then d[k := OpenFile(d[k])] else d
  }

  /** Opening files adds no key and removes none; exactly the keys of file
      inputs are turned into handles. */
  lemma {:induction false} OpenFilesSpec(data: map<string, Datum>, keys: seq<string>, inputs: seq<Input>)
    requires forall i, j :: 0 <= i < j < |keys| ==> keys[i] != keys[j]
    ensures OpenFiles(data, keys, inputs).Keys == data.Keys
    ensures forall k :: k in data ==>
              OpenFiles(data, keys, inputs)[k]
              == if k in keys && IsFileInput(inputs, k) then OpenFile(data[k]) else data[k]
    decreases |keys|
  {
    if keys != [] {
      var pre := keys[..|keys| - 1];
      OpenFilesSpec(data, pre, inputs);
      assert forall k :: k in keys <==> k in pre || k == keys[|keys| - 1];
    }
  }

  /** What `serialize` returns for a form with these (already stripped) inputs. */
  function Payload(inputs: seq<Input>, values: Store): map<string, Datum>
  {
    OpenFiles(Collect(Fields(inputs, values)), Names(inputs), inputs)
  }

  /** The payload has a key exactly for each input name whose field is not None;
      it holds a file handle when that name's first input is a file input and
      the plain value otherwise. */
  lemma PayloadSpec(inputs: seq<Input>, values: Store)
    ensures forall k :: k in Payload(inputs, values) <==>
              k in Names(inputs) && FieldValue(inputs, values, k) != PyNone
    ensures forall k :: k in Payload(inputs, values) ==>
              Payload(inputs, values)[k]
              == if IsFileInput(inputs, k) then Opened(AsData(FieldValue(inputs, values, k)))
                 else Plain(AsData(FieldValue(inputs, values, k)))
  {
    var fields := Fields(inputs, values);
    var keys := Names(inputs);
    CollectSpec(fields);
    OpenFilesSpec(Collect(fields), keys, inputs);
    forall k | k in keys
      ensures exists j :: 0 <= j < |fields| && fields[j].0 == k
    {
      var j :| 0 <= j < |keys| && keys[j] == k;
      assert fields[j].0 == k;
    }
  }
}
