// `ExtractedValuesRepository`: replace the extracted (name, value) rows of
// one message by the entries of a dictionary, DELETE then INSERT.
module ExtractedValuesRepository {
  import opened Wrappers
  import opened Domain
  import opened Store
  import opened FieldMaps

  /** The rows of message `id`, in table order. */
  function RowsFor(rows: seq<ValueRow>, id: string): (r: seq<ValueRow>)
    ensures forall i :: 0 <= i < |r| ==> r[i].auditMessageId == id && r[i] in rows
  {
    if rows == [] then []
    else (if rows[0].auditMessageId == id then [rows[0]] else []) + RowsFor(rows[1..], id)
  }

  /** The DELETE: every row not of message `id`, in table order. */
  function Without(rows: seq<ValueRow>, id: string): (r: seq<ValueRow>)
    ensures forall i :: 0 <= i < |r| ==> r[i].auditMessageId != id && r[i] in rows
  {
    if rows == [] then []
    else (if rows[0].auditMessageId != id then [rows[0]] else []) + Without(rows[1..], id)
  }

  /** The INSERT: one row per dictionary entry, in enumeration order. */
  function EntryRows(id: string, fields: FieldMap): (r: seq<ValueRow>)
    ensures |r| == |fields|
    ensures forall i :: 0 <= i < |r| ==> r[i] == ValueRow(id, fields[i].0, fields[i].1)
  {
    if fields == [] then [] else [ValueRow(id, fields[0].0, fields[0].1)] + EntryRows(id, fields[1..])
  }

  /** `SaveExtractedValuesAsync`. An empty dictionary returns before the
      connection is opened. Otherwise the DELETE runs, then the INSERTs,
      which the foreign key rejects when `id` is not a stored message. */
  function Replace(t: Tables, id: string, fields: FieldMap, fault: bool): (r: Result<Tables, StoreError>)
  {
    if |fields| == 0 then Success(t)
    else if fault then Failure(Unavailable)
    else if id !in t.auditLogs then Failure(ForeignKeyViolation)
    else Success(t.(extractedValues := Without(t.extractedValues, id) + EntryRows(id, fields)))
  }

  method Save(db: Database, id: string, fields: FieldMap, fault: bool) returns (r: Outcome<StoreError>)
    modifies db
    ensures Replace(old(db.tables), id, fields, fault).Failure? ==>
      r == Fail(Replace(old(db.tables), id, fields, fault).error) && db.tables == old(db.tables)
    ensures Replace(old(db.tables), id, fields, fault).Success? ==>
      r == Pass && db.tables == Replace(old(db.tables), id, fields, fault).value
  {
    if |fields| == 0 {
      return Pass;
    }
    if fault {
      return Fail(Unavailable);
    }
    if id !in db.tables.auditLogs {
      return Fail(ForeignKeyViolation);
    }
    var kept := Without(db.tables.extractedValues, id);
    var inserted := [];
    var i := 0;
    while i < |fields|
      invariant 0 <= i <= |fields|
      invariant inserted == EntryRows(id, fields[..i])
      invariant db.tables == old(db.tables)
    {
      EntryRowsSnoc(id, fields[..i], fields[i]);
      assert fields[..i + 1] == fields[..i] + [fields[i]];
      inserted := inserted + [ValueRow(id, fields[i].0, fields[i].1)];
      i := i + 1;
    }
    assert fields[..i] == fields;
    assert inserted == EntryRows(id, fields);
    db.tables := db.tables.(extractedValues := kept + inserted);
    r := Pass;
  }

  lemma {:induction false} EntryRowsSnoc(id: string, fields: FieldMap, e: (string, string))
    ensures EntryRows(id, fields + [e]) == EntryRows(id, fields) + [ValueRow(id, e.0, e.1)]
  {
    if fields != [] {
      assert (fields + [e])[1..] == fields[1..] + [e];
      EntryRowsSnoc(id, fields[1..], e);
    }
  }

  lemma {:induction false} RowsForConcat(a: seq<ValueRow>, b: seq<ValueRow>, id: string)
    ensures RowsFor(a + b, id) == RowsFor(a, id) + RowsFor(b, id)
  {
    if a == [] {
      assert a + b == b;
    } else {
      var head := if a[0].auditMessageId == id then [a[0]] else [];
      assert (a + b)[0] == a[0] && (a + b)[1..] == a[1..] + b;
      assert RowsFor(a + b, id) == head + RowsFor(a[1..] + b, id);
      RowsForConcat(a[1..], b, id);
      assert head + (RowsFor(a[1..], id) + RowsFor(b, id)) == (head + RowsFor(a[1..], id)) + RowsFor(b, id);
    }
  }

  lemma {:induction false} RowsForWithout(rows: seq<ValueRow>, id: string, other: string)
    ensures RowsFor(Without(rows, id), other) == if other == id then [] else RowsFor(rows, other)
  {
    if rows != [] {
      RowsForWithout(rows[1..], id, other);
      RowsForConcat(if rows[0].auditMessageId != id then [rows[0]] else [], Without(rows[1..], id), other);
    }
  }

  lemma {:induction false} RowsForEntryRows(id: string, fields: FieldMap, other: string)
    ensures RowsFor(EntryRows(id, fields), other) == if other == id then EntryRows(id, fields) else []
  {
    if fields != [] {
      RowsForEntryRows(id, fields[1..], other);
      RowsForConcat([ValueRow(id, fields[0].0, fields[0].1)], EntryRows(id, fields[1..]), other);
    }
  }

  /** After a non-empty save the rows of the message are exactly the
      dictionary entries, one per entry in order, and the rows of every
      other message are as they were. */
  lemma ReplaceContents(t: Tables, id: string, fields: FieldMap, fault: bool, other: string)
    requires |fields| > 0 && Replace(t, id, fields, fault).Success?
    ensures RowsFor(Replace(t, id, fields, fault).value.extractedValues, id) == EntryRows(id, fields)
    ensures other != id ==>
      RowsFor(Replace(t, id, fields, fault).value.extractedValues, other) == RowsFor(t.extractedValues, other)
    ensures Replace(t, id, fields, fault).value.auditLogs == t.auditLogs
  {
    RowsForConcat(Without(t.extractedValues, id), EntryRows(id, fields), id);
    RowsForConcat(Without(t.extractedValues, id), EntryRows(id, fields), other);
    RowsForWithout(t.extractedValues, id, id);
    RowsForWithout(t.extractedValues, id, other);
    RowsForEntryRows(id, fields, id);
    RowsForEntryRows(id, fields, other);
  }

  /** An empty dictionary changes nothing, whatever the connection does;
      a non-empty one for an id with no stored message is rejected. */
  lemma ReplaceGuards(t: Tables, id: string, fields: FieldMap, fault: bool)
    ensures |fields| == 0 ==> Replace(t, id, fields, fault) == Success(t)
    ensures |fields| > 0 && !fault && id !in t.auditLogs ==>
      Replace(t, id, fields, fault) == Failure(ForeignKeyViolation)
  {
  }

  lemma {:induction false} WithoutTwice(rows: seq<ValueRow>, id: string)
    ensures Without(Without(rows, id), id) == Without(rows, id)
  {
    if rows != [] {
      WithoutTwice(rows[1..], id);
      var head := if rows[0].auditMessageId != id then [rows[0]] else [];
      WithoutConcat(head, Without(rows[1..], id), id);
    }
  }

  lemma {:induction false} WithoutConcat(a: seq<ValueRow>, b: seq<ValueRow>, id: string)
    ensures Without(a + b, id) == Without(a, id) + Without(b, id)
  {
    if a == [] {
      assert a + b == b;
    } else {
      assert (a + b)[1..] == a[1..] + b;
      WithoutConcat(a[1..], b, id);
    }
  }

  lemma {:induction false} WithoutEntryRows(id: string, fields: FieldMap)
    ensures Without(EntryRows(id, fields), id) == []
  {
    if fields != [] {
      WithoutEntryRows(id, fields[1..]);
    }
  }

  /** Saving the same dictionary twice leaves the table as saving it once. */
  lemma ReplaceIdempotent(t: Tables, id: string, fields: FieldMap)
    requires Replace(t, id, fields, false).Success?
    ensures Replace(Replace(t, id, fields, false).value, id, fields, false) == Replace(t, id, fields, false)
  {
    if |fields| > 0 {
      var once := Without(t.extractedValues, id) + EntryRows(id, fields);
      WithoutConcat(Without(t.extractedValues, id), EntryRows(id, fields), id);
      WithoutTwice(t.extractedValues, id);
      WithoutEntryRows(id, fields);
      assert Without(once, id) == Without(t.extractedValues, id);
    }
  }

  /** When every value row references a stored message, a save keeps it so. */
  lemma ReplaceKeepsForeignKey(t: Tables, id: string, fields: FieldMap, fault: bool)
    requires ValuesReferenceLogs(t)
    requires Replace(t, id, fields, fault).Success?
    ensures ValuesReferenceLogs(Replace(t, id, fields, fault).value)
  {
    if |fields| > 0 {
      var kept := Without(t.extractedValues, id);
      var rows := kept + EntryRows(id, fields);
      forall i | 0 <= i < |rows| ensures rows[i].auditMessageId in t.auditLogs {
        if i < |kept| {
          assert rows[i] == kept[i];
          var j :| 0 <= j < |t.extractedValues| && t.extractedValues[j] == kept[i];
        }
      }
    }
  }
}
