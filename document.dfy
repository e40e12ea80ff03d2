/**
 * document/Document: an ordered list of fields, iterated in insertion
 * order, from which fields are removed by name.
 */
module Document {
  import opened Fields

  /** The first position of a field called `name`, or -1. */
  function IndexOf(fields: seq<Field>, name: string): (k: int)
    ensures -1 <= k < |fields|
    ensures k == -1 <==> forall j :: 0 <= j < |fields| ==> fields[j].name != name
    ensures k >= 0 ==> fields[k].name == name && forall j :: 0 <= j < k ==> fields[j].name != name
  {
    if fields == [] then -1
    else if fields[0].name == name then 0
    else
      var k := IndexOf(fields[1..], name);
      if k == -1 then -1 else k + 1
  }

  /** The fields without the first one called `name`. */
  function RemoveFirst(fields: seq<Field>, name: string): seq<Field> {
    if fields == [] then []
    else if fields[0].name == name then fields[1..]
    else [fields[0]] + RemoveFirst(fields[1..], name)
  }

  /**
   * Removing the first match cuts exactly that position out: everything
   * before and after it stays, in order, and with no match nothing changes.
   */
  lemma {:induction false} RemoveFirstCutsFirstMatch(fields: seq<Field>, name: string)
    ensures var k := IndexOf(fields, name);
      RemoveFirst(fields, name) == if k == -1 then fields else fields[..k] + fields[k + 1..]
  {
    if fields != [] && fields[0].name != name {
      RemoveFirstCutsFirstMatch(fields[1..], name);
      var k := IndexOf(fields[1..], name);
      if k != -1 {
        ConsCut(fields, k);
      }
    }
  }

  /** Cutting position `k` out of a tail and putting the head back cuts position `k + 1`. */
  lemma ConsCut<T>(s: seq<T>, k: nat)
    requires k + 1 < |s|
    ensures [s[0]] + (s[1..][..k] + s[1..][k + 1..]) == s[..k + 1] + s[k + 2..]
  {
    assert s[1..][..k] == s[1..k + 1];
    assert [s[0]] + s[1..k + 1] == s[..k + 1];
    assert s[1..][k + 1..] == s[k + 2..];
  }

  /** Walking past a field not called `name` moves it from the removal to the kept prefix. */
  lemma RemoveFirstStep(fields: seq<Field>, name: string, i: nat)
    requires i < |fields| && fields[i].name != name
    ensures fields[..i] + RemoveFirst(fields[i..], name) == fields[..i + 1] + RemoveFirst(fields[i + 1..], name)
  {
    assert fields[i..][1..] == fields[i + 1..];
    assert fields[..i + 1] == fields[..i] + [fields[i]];
  }

  /** At a field called `name` the removal cuts that field. */
  lemma RemoveFirstHere(fields: seq<Field>, name: string, i: nat)
    requires i < |fields| && fields[i].name == name
    ensures fields[..i] + RemoveFirst(fields[i..], name) == fields[..i] + fields[i + 1..]
  {
    assert fields[i..][1..] == fields[i + 1..];
  }

  /** The fields other than those called `name`, in their order. */
  function Filter(fields: seq<Field>, name: string): (r: seq<Field>)
    ensures |r| <= |fields|
  {
    if fields == [] then []
    else (if fields[0].name == name then [] else [fields[0]]) + Filter(fields[1..], name)
  }

  /** A filtered list holds exactly the fields not called `name`. */
  lemma {:induction false} FilterMembers(fields: seq<Field>, name: string)
    ensures forall f :: f in Filter(fields, name) <==> f in fields && f.name != name
  {
    if fields != [] {
      FilterMembers(fields[1..], name);
      assert fields == [fields[0]] + fields[1..];
    }
  }

  /** Filtering a concatenation filters each part, so the kept fields stay in order. */
  lemma {:induction false} FilterAppend(a: seq<Field>, b: seq<Field>, name: string)
    ensures Filter(a + b, name) == Filter(a, name) + Filter(b, name)
  {
    if a != [] {
      assert (a + b)[1..] == a[1..] + b;
      FilterAppend(a[1..], b, name);
    } else {
      assert a + b == b;
    }
  }

  /** A list with no field called `name` is its own filter. */
  lemma {:induction false} FilterNone(fields: seq<Field>, name: string)
    requires forall j :: 0 <= j < |fields| ==> fields[j].name != name
    ensures Filter(fields, name) == fields
  {
    if fields != [] {
      FilterNone(fields[1..], name);
    }
  }

  /** Removing every field called `name` twice is removing them once. */
  lemma FilterIdempotent(fields: seq<Field>, name: string)
    ensures Filter(Filter(fields, name), name) == Filter(fields, name)
  {
    var r := Filter(fields, name);
    FilterMembers(fields, name);
    forall j | 0 <= j < |r| ensures r[j].name != name {
      assert r[j] in r;
    }
    FilterNone(r, name);
  }

  class Document {
    var fields: seq<Field>

    /** `new Document()`: no fields. */
    constructor ()
      ensures fields == []
    {
      fields := [];
    }

    /** `add`: the field goes at the end. */
    method Add(field: Field)
      modifies this
      ensures fields == old(fields) + [field]
    {
      fields := fields + [field];
    }

    /** `iterator`: the fields in list order, which is the order they were added in. */
    method Iterator() returns (r: seq<Field>)
      ensures r == fields
    {
      r := fields;
    }

    /**
     * `removeField`: walk the list with an iterator, and on the first field
     * called `name` remove it through the iterator and stop.
     */
    method RemoveField(name: string)
      modifies this
      ensures fields == RemoveFirst(old(fields), name)
    {
      var i := 0;
      while i < |fields|
        invariant 0 <= i <= |fields| && fields == old(fields)
        invariant forall j :: 0 <= j < i ==> fields[j].name != name
        invariant RemoveFirst(fields, name) == fields[..i] + RemoveFirst(fields[i..], name)
      {
        var field := fields[i];
        if field.name == name {
          RemoveFirstHere(fields, name, i);
          fields := fields[..i] + fields[i + 1..];
          return;
        }
        RemoveFirstStep(fields, name, i);
        i := i + 1;
      }
      assert fields[i..] == [];
    }

    /** `removeFields`: `removeIf` on the name. */
    method RemoveFields(name: string)
      modifies this
      ensures fields == Filter(old(fields), name)
      ensures forall f :: f in fields ==> f.name != name
    {
      FilterMembers(fields, name);
      fields := Filter(fields, name);
    }
  }
}
