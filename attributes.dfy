/** The attribute dictionary of a tag: a Python dict from attribute name to
    value, whose iteration order is insertion order. It is kept here as a
    sequence of (name, value) pairs in that order. */
module Attributes {

  datatype Option<T> = None | Some(value: T)

  type Attribute = (string, string)

  /** The dictionary invariant: no name occurs twice. */
  predicate UniqueKeys(attrs: seq<Attribute>) {
    forall i, j :: 0 <= i < j < |attrs| ==> attrs[i].0 != attrs[j].0
  }

  predicate HasKey(attrs: seq<Attribute>, key: string) {
    exists i :: 0 <= i < |attrs| && attrs[i].0 == key
  }

  /** `attrs[key]`, or None when the name is absent. */
  function Lookup(attrs: seq<Attribute>, key: string): (r: Option<string>)
    ensures r.None? <==> !HasKey(attrs, key)
  {
    if attrs == [] then None
    else if attrs[0].0 == key then Some(attrs[0].1)
    else
      assert forall i :: 1 <= i < |attrs| ==> attrs[1..][i - 1] == attrs[i];
      Lookup(attrs[1..], key)
  }

  /** `attrs[key] = value`: the entry for an existing name gets the new value
      where it stands; a new name is added at the end. Either way every name
      keeps its position and `key` is present afterwards. */
  function Assign(attrs: seq<Attribute>, key: string, value: string): (r: seq<Attribute>)
    ensures |r| == if HasKey(attrs, key) then |attrs| else |attrs| + 1
    ensures forall i :: 0 <= i < |attrs| ==> r[i].0 == attrs[i].0
    ensures HasKey(r, key)
  {
    if attrs == [] then
      assert [(key, value)][0].0 == key;
      [(key, value)]
    else if attrs[0].0 == key then
      assert ([(key, value)] + attrs[1..])[0].0 == key;
      [(key, value)] + attrs[1..]
    else
      var rest := Assign(attrs[1..], key, value);
      assert HasKey(attrs, key) <==> HasKey(attrs[1..], key) by {
        if HasKey(attrs, key) {
          var i :| 0 <= i < |attrs| && attrs[i].0 == key;
          assert attrs[1..][i - 1].0 == key;
        }
        if HasKey(attrs[1..], key) {
          var i :| 0 <= i < |attrs[1..]| && attrs[1..][i].0 == key;
          assert attrs[i + 1].0 == key;
        }
      }
      assert forall i :: 1 <= i < |attrs| ==> attrs[1..][i - 1] == attrs[i];
      var j :| 0 <= j < |rest| && rest[j].0 == key;
      assert ([attrs[0]] + rest)[j + 1].0 == key;
      [attrs[0]] + rest
  }

  /** Assigning to a name that is present replaces its entry in place. */
  lemma {:induction false} AssignExisting(attrs: seq<Attribute>, key: string, value: string, i: nat)
    requires UniqueKeys(attrs)
    requires i < |attrs| && attrs[i].0 == key
    ensures Assign(attrs, key, value) == attrs[i := (key, value)]
  {
    if i > 0 {
      assert attrs[0].0 != key;
      AssignExisting(attrs[1..], key, value, i - 1);
      assert attrs[i := (key, value)] == [attrs[0]] + attrs[1..][i - 1 := (key, value)];
    }
  }

  /** Assigning to a name that is absent appends one entry after all others. */
  lemma {:induction false} AssignNew(attrs: seq<Attribute>, key: string, value: string)
    requires !HasKey(attrs, key)
    ensures Assign(attrs, key, value) == attrs + [(key, value)]
  {
    if attrs != [] {
      assert attrs[0].0 != key;
      assert !HasKey(attrs[1..], key) by {
        forall i | 0 <= i < |attrs[1..]| ensures attrs[1..][i].0 != key {
          assert attrs[1..][i] == attrs[i + 1];
        }
      }
      AssignNew(attrs[1..], key, value);
      assert attrs == [attrs[0]] + attrs[1..];
    }
  }

  /** Assignment keeps names unique, so the sequence stays a dictionary. */
  lemma {:induction false} AssignKeepsUnique(attrs: seq<Attribute>, key: string, value: string)
    requires UniqueKeys(attrs)
    ensures UniqueKeys(Assign(attrs, key, value))
  {
    if HasKey(attrs, key) {
      var i :| 0 <= i < |attrs| && attrs[i].0 == key;
      AssignExisting(attrs, key, value, i);
    } else {
      AssignNew(attrs, key, value);
    }
  }

  /** Dictionary semantics: reading the assigned name gives the new value,
      and every other name reads as before. */
  lemma {:induction false} LookupAssign(attrs: seq<Attribute>, key: string, value: string, other: string)
    ensures Lookup(Assign(attrs, key, value), key) == Some(value)
    ensures other != key ==> Lookup(Assign(attrs, key, value), other) == Lookup(attrs, other)
  {
    if attrs != [] && attrs[0].0 != key {
      LookupAssign(attrs[1..], key, value, other);
    }
  }
}
