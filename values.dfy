/** Python-level values the driver handles, the exceptions it raises or catches,
    and the string operations it relies on (`in` on strings, `str.lower`, `str.strip`). */
module Values {

  datatype Option<+T> = None | Some(value: T)

  /** `x or default` for an optional string: None and "" are falsy in Python. */
  function OrElse(x: Option<string>, default: string): (r: string)
    ensures x.Some? && x.value != "" ==> r == x.value
    ensures (x.None? || x.value == "") ==> r == default
  {
    if x.Some? && x.value != "" then x.value else default
  }

  /** The exceptions of the modelled code. `ElementDoesNotExist` carries the
      `(find_by, query)` of the empty list when that list has one. */
  datatype Error =
    | ElementDoesNotExist(provenance: Option<(string, string)>)
    | KeyError(key: string)
    | StopIteration
    | AttributeError(attribute: string)
    | IndexError(index: int)

  datatype Result<+T> = Success(value: T) | Failure(error: Error)

  /** What a call that returns nothing of interest ends with. */
  datatype Outcome = Pass | Fail(error: Error)

  /** A Python value as it is passed to `fill`, `fill_form` or stored in an
      element's `value`. `PyOptions` is lxml's MultipleSelectOptions, the value
      of a `<select multiple>`: the values of its selected options. */
  datatype PyValue =
    | PyNone
    | PyBool(b: bool)
    | PyStr(s: string)
    | PyList(items: seq<PyValue>)
    | PyOptions(selected: seq<string>)

  /** Python truthiness (`bool(v)`). */
  predicate Truthy(v: PyValue)
  {
    match v
    case PyNone => false
    case PyBool(b) => b
    case PyStr(s) => s != ""
    case PyList(items) => items != []
    case PyOptions(selected) => selected != []
  }

  /** Attribute lookup `attrib.get(key)`. */
  function Attr(attrs: map<string, string>, key: string): (r: Option<string>)
    ensures r.Some? <==> key in attrs
    ensures r.Some? ==> r.value == attrs[key]
  {
    if key in attrs then Some(attrs[key]) else None
  }

  /** Attribute lookup with a default, `attrib.get(key, default)`. */
  function Get(attrs: map<string, string>, key: string, default: string): (r: string)
    ensures key in attrs ==> r == attrs[key]
    ensures key !in attrs ==> r == default
  {
    if key in attrs then attrs[key] else default
  }

  // ---------------------------------------------------------------------------
  // Substring test: Python's `t in s` on strings.

  predicate Contains(s: string, t: string)
    decreases |s|
  {
    t <= s || (s != [] && Contains(s[1..], t))
  }

  predicate OccursAt(s: string, t: string, k: nat)
  {
    k + |t| <= |s| && s[k..k + |t|] == t
  }

  /** `Contains` agrees with the positional definition of a substring. */
  lemma {:induction false} ContainsIff(s: string, t: string)
    ensures Contains(s, t) <==> exists k: nat :: OccursAt(s, t, k)
    decreases |s|
  {
    if t <= s {
      assert s[0..|t|] == t;
      assert OccursAt(s, t, 0);
    }
    if s == [] {
      if exists k: nat :: OccursAt(s, t, k) {
        var k: nat :| OccursAt(s, t, k);
        assert t == [];
        assert t <= s;
      }
    } else {
      ContainsIff(s[1..], t);
      if exists k: nat :: OccursAt(s[1..], t, k) {
        var k: nat :| OccursAt(s[1..], t, k);
        assert s[k + 1..k + 1 + |t|] == s[1..][k..k + |t|];
        assert OccursAt(s, t, k + 1);
      }
      if exists k: nat :: OccursAt(s, t, k) {
        var k: nat :| OccursAt(s, t, k);
        if k == 0 {
          assert t <= s;
        } else {
          assert s[1..][k - 1..k - 1 + |t|] == s[k..k + |t|];
          assert OccursAt(s[1..], t, k - 1);
        }
      }
    }
  }

  // ---------------------------------------------------------------------------
  // `str.lower` on the ASCII letters.

  predicate IsUpper(c: char) { 'A' <= c <= 'Z' }

  function LowerChar(c: char): (r: char)
    ensures !IsUpper(r)
    ensures !IsUpper(c) ==> r == c
  {
    if IsUpper(c) then (c as int + 32) as char else c
  }

  function Lower(s: string): (r: string)
    ensures |r| == |s|
    ensures forall i :: 0 <= i < |s| ==> r[i] == LowerChar(s[i])
  {
    if s == [] then [] else [LowerChar(s[0])] + Lower(s[1..])
  }

  /** Lower-casing leaves no upper-case letter and is idempotent. */
  lemma LowerIsLower(s: string)
    ensures forall i :: 0 <= i < |Lower(s)| ==> !IsUpper(Lower(s)[i])
    ensures Lower(Lower(s)) == Lower(s)
  {
  }

  // ---------------------------------------------------------------------------
  // `str.strip()` with no argument: Python's whitespace characters.

  predicate IsSpace(c: char)
  {
    var n := c as int;
    (9 <= n <= 13) || (28 <= n <= 32) || n == 0x85 || n == 0xA0 || n == 0x1680
    || (0x2000 <= n <= 0x200A) || n == 0x2028 || n == 0x2029 || n == 0x202F
    || n == 0x205F || n == 0x3000
  }

  function StripLeft(s: string): string
  {
    if s != [] && IsSpace(s[0]) then StripLeft(s[1..]) else s
  }

  function StripRight(s: string): string
  {
    if s != [] && IsSpace(s[|s| - 1]) then StripRight(s[..|s| - 1]) else s
  }

  /** `lstrip` removes a whitespace prefix and leaves a string that does not
      start with whitespace. */
  lemma {:induction false} StripLeftSpec(s: string)
    ensures |StripLeft(s)| <= |s| && StripLeft(s) == s[|s| - |StripLeft(s)|..]
    ensures forall k :: 0 <= k < |s| - |StripLeft(s)| ==> IsSpace(s[k])
    ensures StripLeft(s) != [] ==> !IsSpace(StripLeft(s)[0])
    decreases |s|
  {
    if s != [] && IsSpace(s[0]) {
      StripLeftSpec(s[1..]);
      assert forall k :: 1 <= k < |s| ==> s[k] == s[1..][k - 1];
    }
  }

  /** `rstrip` removes a whitespace suffix and leaves a string that does not
      end with whitespace. */
  lemma {:induction false} StripRightSpec(s: string)
    ensures |StripRight(s)| <= |s| && StripRight(s) == s[..|StripRight(s)|]
    ensures forall k :: |StripRight(s)| <= k < |s| ==> IsSpace(s[k])
    ensures StripRight(s) != [] ==> !IsSpace(StripRight(s)[|StripRight(s)| - 1])
    decreases |s|
  {
    if s != [] && IsSpace(s[|s| - 1]) {
      StripRightSpec(s[..|s| - 1]);
      assert forall k :: 0 <= k < |s| - 1 ==> s[k] == s[..|s| - 1][k];
    }
  }

  /** `str.strip()`. */
  function Strip(s: string): string
  {
    StripRight(StripLeft(s))
  }

  /** Strip removes exactly the leading and trailing whitespace: the result is a
      slice of the input with only whitespace around it, and it neither starts
      nor ends with whitespace. */
  lemma StripSpec(s: string)
    ensures exists i, j :: 0 <= i <= j <= |s| && Strip(s) == s[i..j]
              && (forall k :: 0 <= k < i ==> IsSpace(s[k]))
              && (forall k :: j <= k < |s| ==> IsSpace(s[k]))
    ensures Strip(s) != [] ==> !IsSpace(Strip(s)[0]) && !IsSpace(Strip(s)[|Strip(s)| - 1])
  {
    var l := StripLeft(s);
    var r := StripRight(l);
    StripLeftSpec(s);
    StripRightSpec(l);
    var i, j := |s| - |l|, |s| - |l| + |r|;
    assert r == s[i..j];
    forall k | j <= k < |s|
      ensures IsSpace(s[k])
    {
      assert s[k] == l[k - i];
    }
    if r != [] {
      assert r[0] == l[0];
    }
  }

  /** Whitespace around a string does not survive `strip`. */
  lemma {:induction false} StripPadded(pre: string, t: string, post: string)
    requires forall k :: 0 <= k < |pre| ==> IsSpace(pre[k])
    requires forall k :: 0 <= k < |post| ==> IsSpace(post[k])
    requires t == "" || (!IsSpace(t[0]) && !IsSpace(t[|t| - 1]))
    ensures Strip(pre + t + post) == t
  {
    var s := t + post;
    assert pre + t + post == pre + s;
    LeftPadded(pre, s);
    if t == "" {
      assert s == post;
      AllSpace(post);
    } else {
      assert s[0] == t[0];
      NoLeadingSpace(s);
      RightPadded(t, post);
    }
  }

  lemma AllSpace(s: string)
    requires forall k :: 0 <= k < |s| ==> IsSpace(s[k])
    ensures StripLeft(s) == ""
  {
  }

  lemma {:induction false} LeftPadded(pre: string, s: string)
    requires forall k :: 0 <= k < |pre| ==> IsSpace(pre[k])
    ensures StripLeft(pre + s) == StripLeft(s)
    decreases |pre|
  {
    if pre != [] {
      assert (pre + s)[1..] == pre[1..] + s;
      LeftPadded(pre[1..], s);
    } else {
      assert pre + s == s;
    }
  }

  lemma NoLeadingSpace(s: string)
    requires s != [] && !IsSpace(s[0])
    ensures StripLeft(s) == s
  {
  }

  lemma {:induction false} RightPadded(t: string, post: string)
    requires forall k :: 0 <= k < |post| ==> IsSpace(post[k])
    requires t == "" || !IsSpace(t[|t| - 1])
    ensures StripRight(t + post) == t
    decreases |post|
  {
    if post != [] {
      var p := post[..|post| - 1];
      assert (t + post)[..|t + post| - 1] == t + p;
      RightPadded(t, p);
    } else {
      assert t + post == t;
    }
  }
}
