/**
 * The Gmail message resource as the three JavaScript message classes receive it, and the
 * `Headers` helper class they share: it copies every named header onto itself under the
 * lowercased header name.
 */
module HeaderFields {
  import opened Wrappers
  import opened Text

  /** One `{name, value}` entry of `payload.headers`; either part may be missing. */
  datatype Header = Header(name: Option<string>, value: Option<string>)

  /**
   * A message resource from `users.messages.get`. `headers` is None when `payload` or
   * `payload.headers` is missing, which makes every `Message` constructor throw.
   */
  datatype Resource = Resource(
    id: string,
    snippet: Option<string>,
    internalDate: Option<string>,
    headers: Option<seq<Header>>)

  /** Header `i` has a truthy name that lowercases to `key`. */
  predicate NamedAt(values: seq<Header>, i: int, key: string) {
    0 <= i < |values| && Truthy(values[i].name) && Lower(values[i].name.value) == key
  }

  /** The properties the constructor's `forEach` leaves on `this`, header by header. */
  function Fields(values: seq<Header>): map<string, Option<string>>
  {
    if values == [] then map[]
    else
      var h := values[|values| - 1];
      var m := Fields(values[..|values| - 1]);
      if Truthy(h.name) then m[Lower(h.name.value) := h.value] else m
  }

  /** Reading a property: a property never written reads as `undefined`. */
  function Get(fields: map<string, Option<string>>, key: string): Option<string> {
    if key in fields then fields[key] else None
  }

  /** A property exists exactly for the lowercased truthy header names. */
  lemma {:induction false} FieldsKeys(values: seq<Header>, key: string)
    ensures key in Fields(values) <==> exists i :: NamedAt(values, i, key)
  {
    if values != [] {
      var n := |values| - 1;
      var init := values[..n];
      FieldsKeys(init, key);
      if !NamedAt(values, n, key) {
        assert forall i :: 0 <= i < n ==> (NamedAt(values, i, key) <==> NamedAt(init, i, key));
        if key in Fields(values) {
          var i :| NamedAt(init, i, key);
          assert NamedAt(values, i, key);
        }
      }
    }
  }

  /** Every property name is lowercase. */
  lemma {:induction false} FieldsKeysLower(values: seq<Header>)
    ensures forall k :: k in Fields(values) ==> IsLower(k)
  {
    if values != [] {
      var n := |values| - 1;
      FieldsKeysLower(values[..n]);
      if Truthy(values[n].name) {
        LowerIsLower(values[n].name.value);
      }
    }
  }

  /** The value of a property is that of the LAST header carrying the name. */
  lemma {:induction false} FieldsLast(values: seq<Header>, key: string, i: int)
    requires NamedAt(values, i, key)
    requires forall j :: i < j < |values| ==> !NamedAt(values, j, key)
    ensures Get(Fields(values), key) == values[i].value
  {
    var n := |values| - 1;
    if i < n {
      var init := values[..n];
      assert NamedAt(init, i, key);
      assert !NamedAt(values, n, key);
      assert forall j :: i < j < |init| ==> (NamedAt(init, j, key) <==> NamedAt(values, j, key));
      FieldsLast(init, key, i);
    }
  }

  /** Headers without a truthy name leave no trace. */
  lemma {:induction false} FieldsIgnoreNameless(values: seq<Header>, h: Header)
    requires !Truthy(h.name)
    ensures Fields(values + [h]) == Fields(values)
  {
    assert (values + [h])[..|values|] == values;
  }

  /** A later header with the same lowercased name overrides an earlier one. */
  lemma LaterHeaderWins(values: seq<Header>, name: string, first: Option<string>, second: Option<string>)
    requires name != ""
    ensures Get(Fields(values + [Header(Some(name), first), Header(Some(name), second)]), Lower(name)) == second
  {
    var vs := values + [Header(Some(name), first), Header(Some(name), second)];
    FieldsLast(vs, Lower(name), |vs| - 1);
  }

  /** `class Headers`: one property per lowercased header name. */
  class HeaderSet {
    var fields: map<string, Option<string>>

    /** `values.forEach(h => { if (h.name) this[h.name.toLowerCase()] = h.value })` */
    constructor (values: seq<Header>)
      ensures fields == Fields(values)
    {
      fields := map[];
      new;
      var i := 0;
      while i < |values|
        invariant 0 <= i <= |values|
        invariant fields == Fields(values[..i])
      {
        var h := values[i];
        if Truthy(h.name) {
          fields := fields[Lower(h.name.value) := h.value];
        }
        i := i + 1;
        assert values[..i][..i - 1] == values[..i - 1];
      }
      assert values[..|values|] == values;
    }

    /** `headers[key]` */
    function Read(key: string): (r: Option<string>)
      reads this
      ensures r == Get(fields, key)
    {
      if key in fields then fields[key] else None
    }
  }
}
