/** The education and experience rows of the registration and profile
    forms. A row is a plain JavaScript object the form keeps by reference:
    copying the list (`[...list]`) copies the references, so an edit through
    the copy writes into the very row object the previous state holds. */
module FormRows {
  import opened Seqs

  /** Which of the form's two lists. */
  datatype Section = Education | Experience {
    function Other(): Section {
      if Education? then Experience else Education
    }
  }

  /** A row or form whose every key holds the empty string. */
  function Blank(keys: seq<string>): (m: map<string, string>)
    ensures m.Keys == set k | k in keys
    ensures forall k :: k in m ==> m[k] == ""
  {
    map k | k in keys :: ""
  }

  /** The keys of a blank education row and of a blank experience row. */
  const EducationKeys: seq<string> := ["degree", "duration", "institute", "grade"]
  const ExperienceKeys: seq<string> := ["company", "duration", "role"]

  class Row {
    var fields: map<string, string>

    constructor (fields: map<string, string>)
      ensures this.fields == fields
    {
      this.fields := fields;
    }
  }

  /** The contents of the rows, in order. */
  function Values(rows: seq<Row>): (vs: seq<map<string, string>>)
    reads rows
    ensures |vs| == |rows|
    ensures forall k :: 0 <= k < |rows| ==> vs[k] == rows[k].fields
  {
    if rows == [] then [] else Values(rows[..|rows| - 1]) + [rows[|rows| - 1].fields]
  }

  /** One more row adds its contents at the end. */
  lemma ValuesSnoc(rows: seq<Row>, r: Row)
    ensures Values(rows + [r]) == Values(rows) + [r.fields]
  {
    assert (rows + [r])[..|rows|] == rows;
  }

  /** No row object appears twice, in one list or across both. */
  predicate Separate(a: seq<Row>, b: seq<Row>) {
    && NoDuplicates(a) && NoDuplicates(b)
    && forall i, j :: 0 <= i < |a| && 0 <= j < |b| ==> a[i] != b[j]
  }

  /** A row in neither list can join either. */
  lemma SeparateAdd(a: seq<Row>, b: seq<Row>, r: Row)
    requires Separate(a, b) && r !in a && r !in b
    ensures Separate(a + [r], b) && Separate(a, b + [r])
  {
  }

  lemma SeparateSymmetric(a: seq<Row>, b: seq<Row>)
    requires Separate(a, b)
    ensures Separate(b, a)
  {
  }

  /** Dropping a row from either list keeps them separate. */
  lemma SeparateDrop(a: seq<Row>, b: seq<Row>, k: int)
    requires Separate(a, b)
    ensures Separate(DropIndex(a, k), b) && Separate(a, DropIndex(b, k))
  {
    DropIndexDistinct(a, k);
    DropIndexDistinct(b, k);
    var a', b' := DropIndex(a, k), DropIndex(b, k);
    forall i, j | 0 <= i < |a'| && 0 <= j < |b| ensures a'[i] != b[j] {
      assert a'[i] in a;
    }
    forall i, j | 0 <= i < |a| && 0 <= j < |b'| ensures a[i] != b'[j] {
      assert b'[j] in b;
    }
  }

  /** Removing a row by index removes its contents by the same index. */
  lemma {:induction false} ValuesDropIndex(rows: seq<Row>, k: int)
    ensures Values(DropIndex(rows, k)) == DropIndex(Values(rows), k)
  {
    if rows != [] {
      var init := rows[..|rows| - 1];
      ValuesDropIndex(init, k);
      assert Values(rows)[..|rows| - 1] == Values(init);
      var d := DropIndex(init, k);
      if |rows| - 1 != k {
        assert (d + [rows[|rows| - 1]])[..|d|] == d;
      }
    }
  }

  /** Index filtering keeps a list of distinct rows distinct, and every row
      it keeps was in the list. */
  lemma DropIndexDistinct<T>(s: seq<T>, k: int)
    requires NoDuplicates(s)
    ensures NoDuplicates(DropIndex(s, k))
    ensures forall x :: x in DropIndex(s, k) ==> x in s
  {
    DropIndexIsRemoval(s, k);
    if 0 <= k < |s| {
      var r := DropIndex(s, k);
      assert forall i :: 0 <= i < |r| ==> r[i] == (if i < k then s[i] else s[i + 1]);
    }
  }

  /** `list[index][field] = value` on a copy of the list: the row object
      at `index` is written in place. Past the end there is no row, the
      assignment throws a `TypeError` and nothing changes (`ok` false). */
  method SetField(rows: seq<Row>, index: int, field: string, value: string) returns (ok: bool)
    requires NoDuplicates(rows)
    modifies rows
    ensures ok <==> 0 <= index < |rows|
    ensures ok ==> Values(rows) == old(Values(rows))[index := old(rows[index].fields)[field := value]]
    ensures !ok ==> Values(rows) == old(Values(rows))
  {
    if 0 <= index < |rows| {
      rows[index].fields := rows[index].fields[field := value];
      ok := true;
    } else {
      ok := false;
    }
  }

  /** Fresh row objects holding `vs`: what `JSON.parse` or an object
      literal produces. None of them is one of the existing rows `others`. */
  method FreshRows(vs: seq<map<string, string>>, others: seq<Row>) returns (rows: seq<Row>)
    ensures Values(rows) == vs
    ensures NoDuplicates(rows)
    ensures forall k :: 0 <= k < |rows| ==> fresh(rows[k])
    ensures forall i, j :: 0 <= i < |others| && 0 <= j < |rows| ==> others[i] != rows[j]
  {
    rows := [];
    var k := 0;
    while k < |vs|
      invariant 0 <= k <= |vs|
      invariant Values(rows) == vs[..k]
      invariant NoDuplicates(rows)
      invariant forall j :: 0 <= j < |rows| ==> fresh(rows[j])
    {
      ghost var before := Values(rows);
      var r := new Row(vs[k]);
      assert Values(rows) == before;
      ValuesSnoc(rows, r);
      assert vs[..k + 1] == vs[..k] + [vs[k]];
      rows := rows + [r];
      k := k + 1;
    }
    assert vs[..k] == vs;
    forall i, j | 0 <= i < |others| && 0 <= j < |rows| ensures others[i] != rows[j] {
      assert old(allocated(others[i]));
    }
  }

  /** Two lists of fresh rows, one for each section, with no row shared:
      what reloading a form from the server produces. */
  method FreshSections(ev: seq<map<string, string>>, xv: seq<map<string, string>>)
    returns (e: seq<Row>, x: seq<Row>)
    ensures Values(e) == ev && Values(x) == xv
    ensures Separate(e, x)
    ensures forall k :: 0 <= k < |e| ==> fresh(e[k])
    ensures forall k :: 0 <= k < |x| ==> fresh(x[k])
  {
    e := FreshRows(ev, []);
    ghost var loaded := Values(e);
    x := FreshRows(xv, e);
    assert Values(e) == loaded;
  }

  /** A copy of `rows` with one fresh row holding `fields` at the end
      (`[...list, { ...fields }]`); `others` stays apart from it. */
  method AppendRow(rows: seq<Row>, others: seq<Row>, fields: map<string, string>) returns (grown: seq<Row>)
    requires Separate(rows, others)
    ensures |grown| == |rows| + 1 && grown[..|rows|] == rows && fresh(grown[|rows|])
    ensures Values(grown) == Values(rows) + [fields]
    ensures Separate(grown, others)
  {
    ghost var before := Values(rows);
    var r := new Row(fields);
    assert Values(rows) == before;
    SeparateAdd(rows, others, r);
    ValuesSnoc(rows, r);
    grown := rows + [r];
  }
}
