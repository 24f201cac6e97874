/** The CSV branch of the file picker: the values of the resolved account
    column are stripped, blank ones dropped and the first occurrence of each
    kept; the result is shown one per line in the text box, from which the
    query button parses it again with `parse_ids_from_text`. */
module CsvIds {
  import opened CharClass
  import opened Text
  import opened Unique
  import opened IdParser

  /** A cell that survives the filter `x and x.strip()`: it is neither empty
      nor whitespace only. */
  predicate KeepsValue(v: string) {
    v != [] && Strip(v, IsWs) != []
  }

  /** `[x.strip() for x in ids_series if x and x.strip()]`: the non-blank
      cells, stripped, in column order. */
  function StrippedValues(values: seq<string>): (r: seq<string>)
    ensures |r| <= |values|
    ensures forall k :: 0 <= k < |r| ==> r[k] != []
    decreases |values|
  {
    if values == [] then []
    else
      var n := |values| - 1;
      StrippedValues(values[..n]) + (if KeepsValue(values[n]) then [Strip(values[n], IsWs)] else [])
  }

  /** Every stripped value is non-empty and has no whitespace at either end,
      and the stripped values are exactly the non-blank cells, stripped. */
  lemma {:induction false} StrippedValuesMembers(values: seq<string>)
    ensures forall k :: 0 <= k < |StrippedValues(values)| ==>
              StrippedValues(values)[k] != [] && Trimmed(StrippedValues(values)[k], IsWs)
    ensures forall x :: x in StrippedValues(values) <==>
              x != [] && exists v :: v in values && Strip(v, IsWs) == x
    decreases |values|
  {
    if values != [] {
      var n := |values| - 1;
      var prefix := values[..n];
      StrippedValuesMembers(prefix);
      var r := StrippedValues(values);
      var tail := if KeepsValue(values[n]) then [Strip(values[n], IsWs)] else [];
      assert r == StrippedValues(prefix) + tail;
      assert values == prefix + [values[n]];
      forall k | 0 <= k < |r| ensures r[k] != [] && Trimmed(r[k], IsWs) {
        if k < |StrippedValues(prefix)| {
          assert r[k] == StrippedValues(prefix)[k];
        }
      }
      forall x ensures x in r <==> x != [] && exists v :: v in values && Strip(v, IsWs) == x {
        if x != [] && exists v :: v in values && Strip(v, IsWs) == x {
          var v :| v in values && Strip(v, IsWs) == x;
          if v in prefix {
            assert x in StrippedValues(prefix);
          } else {
            assert v == values[n];
          }
        }
      }
    }
  }

  /** The deduplicated list of stripped, non-blank cells. */
  function CleanCsvColumn(values: seq<string>): (ids: seq<string>)
    ensures Distinct(ids)
  {
    Dedupe(StrippedValues(values))
  }

  /** The loaded ids are exactly the non-blank cells, stripped, each one
      non-empty and without whitespace at either end, in the order in which
      they first occur in the column. */
  lemma CleanCsvColumnMeaning(values: seq<string>)
    ensures forall k :: 0 <= k < |CleanCsvColumn(values)| ==>
              CleanCsvColumn(values)[k] != [] && Trimmed(CleanCsvColumn(values)[k], IsWs)
    ensures forall x :: x in CleanCsvColumn(values) <==>
              x != [] && exists v :: v in values && Strip(v, IsWs) == x
    ensures FirstSeenOrder(CleanCsvColumn(values), StrippedValues(values))
  {
    StrippedValuesMembers(values);
    DedupeFirstSeen(StrippedValues(values));
    var ids := CleanCsvColumn(values);
    forall k | 0 <= k < |ids| ensures ids[k] != [] && Trimmed(ids[k], IsWs) {
      assert ids[k] in StrippedValues(values);
      var j :| 0 <= j < |StrippedValues(values)| && StrippedValues(values)[j] == ids[k];
    }
  }

  /** The CSV cleanup as written: a comprehension, then a loop with its `seen`
      set and `unique_ids` list. */
  method LoadCsvIds(values: seq<string>) returns (uniqueIds: seq<string>)
    ensures uniqueIds == CleanCsvColumn(values)
  {
    var ids: seq<string> := [];
    var i := 0;
    while i < |values|
      invariant 0 <= i <= |values|
      invariant ids == StrippedValues(values[..i])
    {
      assert values[..i + 1][..i] == values[..i];
      if KeepsValue(values[i]) {
        ids := ids + [Strip(values[i], IsWs)];
      }
      i := i + 1;
    }
    assert values[..i] == values;
    var seen: set<string> := {};
    uniqueIds := [];
    var j := 0;
    assert ids[..0] == [];
    while j < |ids|
      invariant 0 <= j <= |ids|
      invariant uniqueIds == Dedupe(ids[..j])
      invariant forall x :: x in seen <==> x in uniqueIds
    {
      var x := ids[j];
      assert ids[..j + 1] == ids[..j] + [x];
      DedupeFromSnoc(ids[..j], x, {});
      if x !in seen {
        seen := seen + {x};
        uniqueIds := uniqueIds + [x];
      }
      j := j + 1;
    }
    assert ids[..j] == ids;
  }

  /** A cell that shows in the text box as one identifier the parser keeps
      whole: after stripping it holds no comma or inner whitespace and does
      not start or end with a quote. */
  predicate PlainValue(v: string) {
    NoneOf(Strip(v, IsWs), IsDelim) && Trimmed(Strip(v, IsWs), IsQuote)
  }

  /** Loading a column of plain cells and then pressing the query button
      (the ids are written one per line into the text box, which the query
      button parses again) gives back exactly the loaded ids, whatever
      trailing whitespace the text box adds. */
  lemma CsvReparse(values: seq<string>, pad: string)
    requires forall k :: 0 <= k < |values| ==> PlainValue(values[k])
    requires All(pad, IsWs)
    ensures ParseIds(Join(CleanCsvColumn(values), "\n") + pad) == CleanCsvColumn(values)
  {
    var ids := CleanCsvColumn(values);
    CleanCsvColumnMeaning(values);
    forall k | 0 <= k < |ids| ensures IsCleanId(ids[k]) {
      assert ids[k] in ids;
      var v :| v in values && Strip(v, IsWs) == ids[k];
      var i :| 0 <= i < |values| && values[i] == v;
      assert PlainValue(values[i]);
    }
    assert IsWs('\n');
    ParseJoinRoundTrip(ids, "\n", pad);
  }
}
