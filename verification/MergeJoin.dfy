/**
 How a `$merge` stage joins on its `on` fields: the columns the join reads, and the unique index that
 makes the join a function.
 */
module MergeJoin {
  import opened Bson

  /** The `on` argument: a string, or an array of strings. */
  datatype On = One(field: string) | Many(fields: seq<string>)

  function OnFields(on: On): seq<string> {
    match on
    case One(f) => [f]
    case Many(fs) => fs
  }

  /* ---------- columns ---------- */

  /** What a target list entry computes; Original is an expression of the query so far. */
  datatype Expr = Original(id: int) | TargetShardKey | GeneratedObjectId | ExtractMergeFilter(field: string)

  datatype Entry = Entry(resno: int, expr: Expr)

  /** RearrangeTargetListForMerge; for $out there are no `on` fields. */
  method RearrangeTargetList(targetList: seq<Entry>, onFields: seq<string>) returns (newList: seq<Entry>)
    requires targetList != []
    ensures |newList| == |targetList| + 2 + |onFields|
    ensures newList[0] == targetList[0]
    ensures forall i :: 0 <= i < |newList| ==> newList[i].resno == targetList[0].resno + i
    ensures newList[1].expr == TargetShardKey && newList[2].expr == GeneratedObjectId
    ensures forall j :: 0 <= j < |onFields| ==> newList[3 + j].expr == ExtractMergeFilter(onFields[j])
    ensures forall i :: 1 <= i < |targetList| ==> newList[2 + |onFields| + i].expr == targetList[i].expr
  {
    var resNumber := targetList[0].resno;
    newList := [targetList[0]];
    resNumber := resNumber + 1;
    newList := newList + [Entry(resNumber, TargetShardKey)];
    resNumber := resNumber + 1;
    newList := newList + [Entry(resNumber, GeneratedObjectId)];
    for j := 0 to |onFields|
      invariant |newList| == 3 + j && resNumber == targetList[0].resno + 2 + j
      invariant newList[0] == targetList[0]
      invariant newList[1].expr == TargetShardKey && newList[2].expr == GeneratedObjectId
      invariant forall i :: 0 <= i < |newList| ==> newList[i].resno == targetList[0].resno + i
      invariant forall k :: 0 <= k < j ==> newList[3 + k].expr == ExtractMergeFilter(onFields[k])
    {
      resNumber := resNumber + 1;
      newList := newList + [Entry(resNumber, ExtractMergeFilter(onFields[j]))];
    }
    ghost var front := newList;
    for i := 1 to |targetList|
      invariant |newList| == 2 + |onFields| + i && resNumber == targetList[0].resno + 1 + |onFields| + i
      invariant front <= newList
      invariant forall k :: 0 <= k < |newList| ==> newList[k].resno == targetList[0].resno + k
      invariant forall k :: 1 <= k < i ==> newList[2 + |onFields| + k].expr == targetList[k].expr
    {
      resNumber := resNumber + 1;
      newList := newList + [targetList[i].(resno := resNumber)];
    }
  }

  /** One conjunct of the join condition: equality with the object_id column, or
      bson_dollar_merge_join with an extracted column of the source. */
  datatype Term = IdTerm | ColumnTerm(field: string, column: int)

  const EXTRACTED_FIELDS_INIT_INDEX := 4

  /** WriteJoinConditionToQueryDollarMerge, after the shard key equality. The column number advances
      for `_id` too, though that term reads no extracted column. */
  method JoinTerms(onFields: seq<string>) returns (terms: seq<Term>)
    ensures |terms| == |onFields|
    ensures forall j :: 0 <= j < |onFields| ==> terms[j] == TermFor(onFields, j)
  {
    terms := [];
    var extractFieldResNum := EXTRACTED_FIELDS_INIT_INDEX;
    for j := 0 to |onFields|
      invariant |terms| == j && extractFieldResNum == EXTRACTED_FIELDS_INIT_INDEX + j
      invariant forall k :: 0 <= k < j ==> terms[k] == TermFor(onFields, k)
    {
      var term := if onFields[j] == ID then IdTerm else ColumnTerm(onFields[j], extractFieldResNum);
      terms := terms + [term];
      extractFieldResNum := extractFieldResNum + 1;
    }
  }

  function TermFor(onFields: seq<string>, j: nat): Term
    requires j < |onFields|
  {
    if onFields[j] == ID then IdTerm else ColumnTerm(onFields[j], EXTRACTED_FIELDS_INIT_INDEX + j)
  }

  /** The term reads a column of the list, and that column is the extraction of the term's field. */
  ghost predicate ReadsItsField(t: Term, list: seq<Entry>) {
    t.ColumnTerm? ==> exists i :: 0 <= i < |list| && list[i] == Entry(t.column, ExtractMergeFilter(t.field))
  }

  /** The two loops agree: for every `on` list, wherever `_id` stands in it and whatever fields are repeated, each
      term reads the column that holds the extraction of its own field, if and only if the source's
      document is column 1 or there is no field but `_id`. */
  method TermsReadTheirFields(targetList: seq<Entry>, onFields: seq<string>)
    returns (newList: seq<Entry>, terms: seq<Term>)
    requires targetList != [] && forall e :: e in targetList ==> e.expr.Original?
    ensures |terms| == |onFields| && forall j :: 0 <= j < |onFields| ==> terms[j] == TermFor(onFields, j)
    ensures AllRead(terms, newList) <==> targetList[0].resno == 1 || OnlyId(onFields)
  {
    newList := RearrangeTargetList(targetList, onFields);
    terms := JoinTerms(onFields);
    if targetList[0].resno == 1 || OnlyId(onFields) {
      forall j | 0 <= j < |terms| ensures ReadsItsField(terms[j], newList) {
        if onFields[j] != ID { ReadsShifted(targetList, onFields, newList, j); }
      }
    } else {
      ghost var j := Outermost(onFields, 1 - targetList[0].resno);
      ReadsShifted(targetList, onFields, newList, j);
      assert !ReadsItsField(terms[j], newList);
    }
  }

  ghost predicate AllRead(terms: seq<Term>, list: seq<Entry>) {
    forall j :: 0 <= j < |terms| ==> ReadsItsField(terms[j], list)
  }

  predicate OnlyId(onFields: seq<string>) {
    forall j :: 0 <= j < |onFields| ==> onFields[j] == ID
  }

  predicate HasFieldAt(onFields: seq<string>, f: string, k: int) {
    0 <= k < |onFields| && onFields[k] == f
  }

  // A term reads its own field's column, moved by as much as the document's number is off.
  lemma {:induction false} ReadsShifted(targetList: seq<Entry>, onFields: seq<string>, newList: seq<Entry>, j: nat)
    requires targetList != [] && forall e :: e in targetList ==> e.expr.Original?
    requires |newList| == |targetList| + 2 + |onFields| && newList[0] == targetList[0]
    requires forall i :: 0 <= i < |newList| ==> newList[i].resno == targetList[0].resno + i
    requires newList[1].expr == TargetShardKey && newList[2].expr == GeneratedObjectId
    requires forall j :: 0 <= j < |onFields| ==> newList[3 + j].expr == ExtractMergeFilter(onFields[j])
    requires forall i :: 1 <= i < |targetList| ==> newList[2 + |onFields| + i].expr == targetList[i].expr
    requires j < |onFields| && onFields[j] != ID
    ensures ReadsItsField(TermFor(onFields, j), newList)
            <==> HasFieldAt(onFields, onFields[j], j + 1 - targetList[0].resno)
  {
    var t, k := TermFor(onFields, j), j + 1 - targetList[0].resno;
    forall i | 0 <= i < |newList| ensures newList[i].expr.ExtractMergeFilter? <==> 3 <= i < 3 + |onFields| {
      if i == 0 {
        assert targetList[0] in targetList;
      } else if 3 <= i < 3 + |onFields| {
        assert newList[3 + (i - 3)].expr == ExtractMergeFilter(onFields[i - 3]);
      } else if i >= 3 {
        var k := i - 2 - |onFields|;
        assert targetList[k] in targetList && newList[2 + |onFields| + k].expr == targetList[k].expr;
      }
    }
    if 0 <= k < |onFields| {
      assert newList[3 + k] == Entry(t.column, ExtractMergeFilter(onFields[k]));
    }
  }

  /** The last field other than `_id`, or the first one: no other such field is `shift` places further on. */
  lemma {:induction false} Outermost(onFields: seq<string>, shift: int) returns (j: nat)
    requires shift != 0 && !OnlyId(onFields)
    ensures j < |onFields| && onFields[j] != ID && !HasFieldAt(onFields, onFields[j], j + shift)
  {
    j :| j < |onFields| && onFields[j] != ID;
    while HasFieldAt(onFields, onFields[j], j + shift)
      invariant j < |onFields| && onFields[j] != ID
      decreases if shift > 0 then |onFields| - j else j
    {
      j := j + shift;
    }
  }

  /* ---------- the index ---------- */

  datatype Index = Index(unique: bool, partial: bool, keys: seq<string>)

  datatype Verdict = Accepted | NoIndex | DuplicateField

  predicate Usable(ix: Index) {
    ix.unique && !ix.partial
  }

  /** InitHashTableFromStringArray. */
  method HashTableOf(fields: seq<string>) returns (table: set<string>, duplicate: bool)
    ensures duplicate <==> !Distinct(fields)
    ensures !duplicate ==> (forall f :: f in table <==> f in fields) && |table| == |fields|
  {
    table, duplicate := {}, false;
    for i := 0 to |fields|
      invariant !duplicate && |table| == i && Distinct(fields[..i])
      invariant forall f :: f in table <==> f in fields[..i]
    {
      assert fields[..i + 1] == fields[..i] + [fields[i]];
      if fields[i] in table {
        duplicate := true;
        var k :| 0 <= k < i && fields[..i][k] == fields[i];
        return;
      }
      table := table + {fields[i]};
    }
    assert fields[..|fields|] == fields;
  }

  /** IsCompoundUniqueIndexPresent, once the hash table is made. */
  method CoversKeys(table: set<string>, numElements: nat, keys: seq<string>) returns (found: bool)
    ensures found <==> (forall k :: k in keys ==> k in table) && |keys| >= numElements
  {
    var foundCount := 0;
    for i := 0 to |keys|
      invariant foundCount == i && forall j :: 0 <= j < i ==> keys[j] in table
    {
      if keys[i] !in table {
        return false;
      }
      foundCount := foundCount + 1;
    }
    found := foundCount >= numElements;
  }

  /** What makes an index fit the `on` fields: the same set of keys. */
  ghost predicate Fits(ix: Index, fields: seq<string>) {
    Usable(ix) && (forall k :: k in ix.keys <==> k in fields)
  }

  /** VaildateMergeOnFieldValues, for an existing collection with these indexes. A repeated `on`
      field is only noticed at the first usable index; `on: ["_id"]` needs none. */
  method ValidateOn(on: On, indexes: seq<Index>) returns (v: Verdict)
    requires forall ix :: ix in indexes ==> Distinct(ix.keys)
    ensures
      var fields := match on case One(f) => [f] case Many(fs) => fs;
      v == Accepted <==>
        || fields == ["_id"]
        || (&& (forall i, j :: 0 <= i < j < |fields| ==> fields[i] != fields[j])
            && exists ix :: ix in indexes && ix.unique && !ix.partial && forall k :: k in ix.keys <==> k in fields)
    ensures
      var fields := match on case One(f) => [f] case Many(fs) => fs;
      v == DuplicateField <==>
        && (exists i, j :: 0 <= i < j < |fields| && fields[i] == fields[j])
        && exists ix :: ix in indexes && ix.unique && !ix.partial
  {
    var fields := OnFields(on);
    assert |fields| == 1 ==> fields == [fields[0]];
    if |fields| == 1 && fields[0] == ID {
      return Accepted;
    }
    for i := 0 to |indexes|
      invariant forall j :: 0 <= j < i ==> !(Distinct(fields) && Fits(indexes[j], fields))
      invariant !Distinct(fields) ==> forall j :: 0 <= j < i ==> !Usable(indexes[j])
    {
      var ix := indexes[i];
      if Usable(ix) {
        if |fields| == 1 {
          SingleFits(ix, fields[0]);
          if ix.keys == [fields[0]] {
            return Accepted;
          }
        } else {
          var table, duplicate := HashTableOf(fields);
          if duplicate {
            return DuplicateField;
          }
          var found := CoversKeys(table, |fields|, ix.keys);
          CompoundFits(ix, fields);
          if found {
            return Accepted;
          }
        }
      }
    }
    v := NoIndex;
  }

  lemma SingleFits(ix: Index, f: string)
    requires Usable(ix) && Distinct(ix.keys)
    ensures Fits(ix, [f]) <==> ix.keys == [f]
  {
    if Fits(ix, [f]) {
      SizeOfDistinct(ix.keys);
      assert f in [f];
      assert ToSet(ix.keys) == {f};
    }
  }

  function ToSet(s: seq<string>): set<string> { set x | x in s }

  lemma {:induction false} SizeOfDistinct(s: seq<string>)
    requires Distinct(s)
    ensures |ToSet(s)| == |s|
  {
    if s != [] {
      var init, last := s[..|s| - 1], s[|s| - 1];
      SizeOfDistinct(init);
      assert ToSet(s) == ToSet(init) + {last};
      assert last !in init;
    }
  }

  /** Counting is enough: with no key repeated on either side, keys inside the fields and no fewer
      of them are all the fields. */
  lemma CompoundFits(ix: Index, fields: seq<string>)
    requires Usable(ix) && Distinct(ix.keys) && Distinct(fields)
    ensures Fits(ix, fields) <==> (forall k :: k in ix.keys ==> k in fields) && |ix.keys| >= |fields|
  {
    SizeOfDistinct(ix.keys);
    SizeOfDistinct(fields);
    var keys, all := ToSet(ix.keys), ToSet(fields);
    if Fits(ix, fields) {
      assert keys == all;
    }
    if (forall k :: k in ix.keys ==> k in fields) && |ix.keys| >= |fields| {
      assert keys <= all;
      SubsetSameSize(keys, all);
      assert keys == all;
      forall k | k in fields ensures k in ix.keys { assert k in all; }
    }
  }

  lemma SubsetSameSize(a: set<string>, b: set<string>)
    requires a <= b && |a| >= |b|
    ensures a == b
  {
    assert b == a + (b - a);
  }

  /* ---------- hence the join is a function ---------- */

  /** A target row: the terms an index sees at a path (several if it holds an array). */
  datatype Row = Row(terms: map<string, set<real>>)

  function Terms(r: Row, field: string): set<real> {
    if field in r.terms then r.terms[field] else {}
  }

  predicate Apart(a: Row, b: Row, field: string) {
    Terms(a, field) !! Terms(b, field)
  }

  predicate ApartAtSome(a: Row, b: Row, keys: seq<string>) {
    exists k :: k in keys && Apart(a, b, k)
  }

  /** The unique index: no two rows share a term at every key. */
  ghost predicate Enforced(keys: seq<string>, rows: seq<Row>) {
    forall i, j :: 0 <= i < j < |rows| ==> ApartAtSome(rows[i], rows[j], keys)
  }

  /** The join condition: each extracted source value is among the row's terms. */
  predicate JoinsRow(source: map<string, real>, fields: seq<string>, r: Row) {
    forall f :: f in fields ==> f in source && source[f] in Terms(r, f)
  }

  /** A source row joins a target row if each of its `on` values is a term of the row at that field. A unique index
      keeps two rows apart if at some key their terms are disjoint. */
  lemma JoinInTerms(source: map<string, real>, fields: seq<string>, r: Row, keys: seq<string>, other: Row)
    ensures JoinsRow(source, fields, r) <==>
            forall f :: f in fields ==> f in source && f in r.terms && source[f] in r.terms[f]
    ensures ApartAtSome(r, other, keys) <==>
            exists k :: k in keys && (k in r.terms && k in other.terms ==> r.terms[k] !! other.terms[k])
  {
    forall k ensures Apart(r, other, k) <==> (k in r.terms && k in other.terms ==> r.terms[k] !! other.terms[k]) {
    }
    if k :| k in keys && (k in r.terms && k in other.terms ==> r.terms[k] !! other.terms[k]) {
      assert Apart(r, other, k);
    }
  }

  /** If the `on` fields were accepted and the table obeys its unique indexes, `_id` included, a source
      row joins at most one target row. */
  lemma JoinIsFunctional(on: On, indexes: seq<Index>, rows: seq<Row>, source: map<string, real>, i: nat, j: nat)
    requires OnFields(on) == [ID] || exists ix :: ix in indexes && Fits(ix, OnFields(on))
    requires Enforced([ID], rows) && forall ix :: ix in indexes && Usable(ix) ==> Enforced(ix.keys, rows)
    requires i < |rows| && JoinsRow(source, OnFields(on), rows[i])
    requires j < |rows| && JoinsRow(source, OnFields(on), rows[j])
    ensures i == j
  {
    if i < j {
      SharesATerm(on, indexes, rows, source, i, j);
    } else if j < i {
      SharesATerm(on, indexes, rows, source, j, i);
    }
  }

  lemma SharesATerm(on: On, indexes: seq<Index>, rows: seq<Row>, source: map<string, real>, i: nat, j: nat)
    requires OnFields(on) == [ID] || exists ix :: ix in indexes && Fits(ix, OnFields(on))
    requires Enforced([ID], rows) && forall ix :: ix in indexes && Usable(ix) ==> Enforced(ix.keys, rows)
    requires i < j < |rows|
    ensures !(JoinsRow(source, OnFields(on), rows[i]) && JoinsRow(source, OnFields(on), rows[j]))
  {
    if OnFields(on) == [ID] {
      NoTwoRows([ID], OnFields(on), rows, source, i, j);
    } else {
      var ix :| ix in indexes && Fits(ix, OnFields(on));
      NoTwoRows(ix.keys, OnFields(on), rows, source, i, j);
    }
  }

  lemma NoTwoRows(keys: seq<string>, fields: seq<string>, rows: seq<Row>, source: map<string, real>, i: nat, j: nat)
    requires Enforced(keys, rows) && i < j < |rows| && forall k :: k in keys ==> k in fields
    ensures !(JoinsRow(source, fields, rows[i]) && JoinsRow(source, fields, rows[j]))
  {
    assert ApartAtSome(rows[i], rows[j], keys);
    var k :| k in keys && Apart(rows[i], rows[j], k);
    assert k in fields;
  }
}
