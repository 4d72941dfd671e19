/** Collecting and grouping export records in src/bot/commands/state_council.py. */
module CsvExport {
  import opened Selections
  import opened Wrappers

  datatype Record = Record(kind: string, id: string)

  /** One key of by_type with its records; a dict is its sections in insertion order. */
  datatype Section = Section(kind: string, records: seq<Record>)

  // ---------------------------------------------------------------- collecting

  /** A gateway record: its identifier and its time, if it has one. */
  datatype Row = Row(id: string, at: Option<int>)

  predicate InRange(r: Row, start: Option<int>, end: Option<int>) {
    (start.None? && end.None?)
    || (r.at.Some? && (start.Some? ==> start.value <= r.at.value) && (end.Some? ==> r.at.value <= end.value))
  }

  function Export(kind: string, rows: seq<Row>, start: Option<int>, end: Option<int>): seq<Record> {
    if rows == [] then []
    else (if InRange(rows[0], start, end) then [Record(kind, rows[0].id)] else []) + Export(kind, rows[1..], start, end)
  }

  /** The fetches in their order; an export type other than "all" takes one of them. */
  function Collected(exportType: string, welfare: seq<Row>, tax: seq<Row>, identity: seq<Row>, currency: seq<Row>,
                     transfers: seq<Row>, start: Option<int>, end: Option<int>): seq<Record> {
    var wants := (t: string) => exportType == "all" || exportType == t;
    (if wants("welfare") then Export("welfare", welfare, start, end) else [])
    + (if wants("tax") then Export("tax", tax, start, end) else [])
    + (if wants("identity") then Export("identity", identity, start, end) else [])
    + (if wants("currency") then Export("currency", currency, start, end) else [])
    + (if wants("transfers") then Export("transfer", transfers, start, end) else [])
  }

  // ---------------------------------------------------------------- grouping

  function AddTo(sections: seq<Section>, r: Record): seq<Section> {
    if sections == [] then [Section(r.kind, [r])]
    else if sections[0].kind == r.kind then [Section(r.kind, sections[0].records + [r])] + sections[1..]
    else [sections[0]] + AddTo(sections[1..], r)
  }

  function Grouped(records: seq<Record>): seq<Section> {
    if records == [] then [] else AddTo(Grouped(records[..|records| - 1]), records[|records| - 1])
  }

  /** The data rows in the order the sections are written. */
  function Written(sections: seq<Section>): seq<Record> {
    if sections == [] then [] else sections[0].records + Written(sections[1..])
  }

  method GroupByType(records: seq<Record>) returns (sections: seq<Section>)
    ensures sections == Grouped(records)
  {
    sections := [];
    for i := 0 to |records|
      invariant sections == Grouped(records[..i])
    {
      assert records[..i + 1][..i] == records[..i];
      sections := AddTo(sections, records[i]);
    }
    assert records[..|records|] == records;
  }

  function OfKind(records: seq<Record>, kind: string): seq<Record> {
    if records == [] then []
    else OfKind(records[..|records| - 1], kind)
         + if records[|records| - 1].kind == kind then [records[|records| - 1]] else []
  }

  /** Distinct kinds, and each section's records are of its kind. */
  predicate WellFormed(sections: seq<Section>) {
    && (forall i, j :: 0 <= i < j < |sections| ==> sections[i].kind != sections[j].kind)
    && (forall i :: 0 <= i < |sections| ==>
          sections[i].records != [] && forall r :: r in sections[i].records ==> r.kind == sections[i].kind)
  }

  /** The index of the kind's section, or the number of sections if it has none. */
  function Position(sections: seq<Section>, kind: string): (p: nat)
    ensures p <= |sections|
    ensures p < |sections| ==> sections[p].kind == kind
    ensures forall i :: 0 <= i < p ==> sections[i].kind != kind
  {
    if sections == [] || sections[0].kind == kind then 0 else 1 + Position(sections[1..], kind)
  }

  lemma {:induction false} AddToAt(sections: seq<Section>, r: Record)
    ensures
      var p := Position(sections, r.kind);
      AddTo(sections, r) ==
        if p < |sections| then sections[p := Section(r.kind, sections[p].records + [r])]
        else sections + [Section(r.kind, [r])]
  {
    if sections != [] && sections[0].kind != r.kind {
      AddToAt(sections[1..], r);
    }
  }

  lemma AddToWellFormed(sections: seq<Section>, r: Record)
    requires WellFormed(sections)
    ensures WellFormed(AddTo(sections, r))
  {
    AddToAt(sections, r);
    var p := Position(sections, r.kind);
    var s' := if p < |sections| then Section(r.kind, sections[p].records + [r]) else Section(r.kind, [r]);
    assert forall i :: 0 <= i < |AddTo(sections, r)| ==>
             AddTo(sections, r)[i] == if i == p then s' else sections[i];
    assert forall q :: q in s'.records ==> q.kind == s'.kind;
  }

  lemma {:induction false} AddToWritten(sections: seq<Section>, r: Record)
    ensures multiset(Written(AddTo(sections, r))) == multiset(Written(sections)) + multiset{r}
  {
    if sections != [] && sections[0].kind != r.kind {
      AddToWritten(sections[1..], r);
    }
  }

  lemma {:induction false} AddToEnd(sections: seq<Section>, r: Record)
    requires Position(sections, r.kind) >= |sections| - 1
    ensures Written(AddTo(sections, r)) == Written(sections) + [r]
  {
    if sections == [] {
      assert [Section(r.kind, [r])][1..] == [];
    } else if sections[0].kind == r.kind {
      assert sections[1..] == [];
      var s' := Section(r.kind, sections[0].records + [r]);
      assert AddTo(sections, r) == [s'] && [s'][1..] == [];
    } else {
      AddToEnd(sections[1..], r);
      var rest := sections[1..];
      assert sections[0].records + (Written(rest) + [r]) == sections[0].records + Written(rest) + [r];
    }
  }

  lemma {:induction false} GroupedIsWellFormed(records: seq<Record>)
    ensures WellFormed(Grouped(records))
  {
    if records != [] {
      GroupedIsWellFormed(records[..|records| - 1]);
      AddToWellFormed(Grouped(records[..|records| - 1]), records[|records| - 1]);
    }
  }

  /** The records of the kind's section, if it has one. */
  function Holds(sections: seq<Section>, kind: string): seq<Record> {
    if sections == [] then []
    else if sections[0].kind == kind then sections[0].records else Holds(sections[1..], kind)
  }

  lemma {:induction false} AddToHolds(sections: seq<Section>, r: Record, kind: string)
    ensures Holds(AddTo(sections, r), kind) == Holds(sections, kind) + if r.kind == kind then [r] else []
  {
    if sections != [] && sections[0].kind != r.kind {
      AddToHolds(sections[1..], r, kind);
    }
  }

  lemma {:induction false} HoldsAt(sections: seq<Section>, i: nat)
    requires WellFormed(sections) && i < |sections|
    ensures Holds(sections, sections[i].kind) == sections[i].records
  {
    if i > 0 {
      HoldsAt(sections[1..], i - 1);
    }
  }

  lemma {:induction false} SectionsHoldTheirKind(records: seq<Record>, kind: string)
    ensures Holds(Grouped(records), kind) == OfKind(records, kind)
  {
    if records != [] {
      SectionsHoldTheirKind(records[..|records| - 1], kind);
      AddToHolds(Grouped(records[..|records| - 1]), records[|records| - 1], kind);
    }
  }

  lemma {:induction false} GroupingPermutes(records: seq<Record>)
    ensures multiset(Written(Grouped(records))) == multiset(records)
  {
    if records != [] {
      var before, r := records[..|records| - 1], records[|records| - 1];
      GroupingPermutes(before);
      AddToWritten(Grouped(before), r);
      assert records == before + [r];
    }
  }

  /**
    Grouping is a stable permutation: one section per kind, each holding exactly the records of
    its kind in their order, and all sections together holding every record as often as it came.
   */
  lemma GroupingIsStable(records: seq<Record>)
    ensures WellFormed(Grouped(records))
    ensures forall s :: s in Grouped(records) ==> s.records == OfKind(records, s.kind)
    ensures multiset(Written(Grouped(records))) == multiset(records)
    ensures forall r :: r in Written(Grouped(records)) <==> r in records
  {
    GroupedIsWellFormed(records);
    GroupingPermutes(records);
    var sections := Grouped(records);
    forall s | s in sections
      ensures s.records == OfKind(records, s.kind)
    {
      var i :| 0 <= i < |sections| && sections[i] == s;
      SectionsHoldTheirKind(records, s.kind);
      HoldsAt(sections, i);
    }
    assert forall r :: r in Written(sections) <==> r in multiset(Written(sections));
    assert forall r :: r in records <==> r in multiset(records);
  }

  // ---------------------------------------------------------------- when the order survives

  /** Records of one kind stand together. */
  predicate Contiguous(records: seq<Record>) {
    forall i, j, k :: 0 <= i < j < k < |records| && records[i].kind == records[k].kind ==>
      records[j].kind == records[i].kind
  }

  lemma {:induction false} WrittenIsContiguous(sections: seq<Section>)
    requires WellFormed(sections)
    ensures Contiguous(Written(sections))
    ensures forall r :: r in Written(sections) ==> Position(sections, r.kind) < |sections|
  {
    if sections != [] {
      var first, rest := sections[0], sections[1..];
      WrittenIsContiguous(rest);
      var w := Written(sections);
      var n := |first.records|;
      forall i | 0 <= i < |w|
        ensures i < n ==> w[i].kind == first.kind
        ensures i >= n ==> w[i] == Written(rest)[i - n] && w[i].kind != first.kind
      {
        if i < n {
          assert first.records[i] in first.records;
        } else {
          assert Written(rest)[i - n] in Written(rest);
          assert rest[Position(rest, w[i].kind)].kind == w[i].kind;
        }
      }
    }
  }

  lemma {:induction false} LastSectionHasLastKind(sections: seq<Section>)
    requires WellFormed(sections) && sections != []
    ensures Written(sections) != []
    ensures Written(sections)[|Written(sections)| - 1].kind == sections[|sections| - 1].kind
  {
    if |sections| == 1 {
      assert sections[1..] == [];
      var records := sections[0].records;
      assert records[|records| - 1] in records;
    } else {
      LastSectionHasLastKind(sections[1..]);
    }
  }

  lemma KindOccurs(records: seq<Record>, p: nat)
    requires p < |Grouped(records)|
    ensures exists i :: 0 <= i < |records| && records[i].kind == Grouped(records)[p].kind
  {
    GroupingIsStable(records);
    var r := Grouped(records)[p].records[0];
    assert r in Grouped(records)[p].records;
    InWritten(Grouped(records), p, r);
  }

  lemma LastKind(before: seq<Record>, r: Record, i: nat)
    requires Contiguous(before + [r]) && i < |before| && before[i].kind == r.kind
    ensures before[|before| - 1].kind == r.kind
  {
    var all, n := before + [r], |before|;
    assert all[i] == before[i] && all[n - 1] == before[n - 1] && all[n] == r;
    assert i < n - 1 ==> all[n - 1].kind == all[i].kind;
  }

  /** One more record of a contiguous list goes to the last section, or opens a new one. */
  lemma NextRecordComesLast(before: seq<Record>, r: Record)
    requires Contiguous(before + [r]) && Written(Grouped(before)) == before
    ensures Written(Grouped(before + [r])) == before + [r]
  {
    var sections := Grouped(before);
    assert Grouped(before + [r]) == AddTo(sections, r) by {
      assert (before + [r])[..|before|] == before;
    }
    if Position(sections, r.kind) < |sections| {
      KindOccurs(before, Position(sections, r.kind));
      var i :| 0 <= i < |before| && before[i].kind == r.kind;
      LastKind(before, r, i);
      GroupedIsWellFormed(before);
      LastSectionHasLastKind(sections);
    }
    AddToEnd(sections, r);
  }

  lemma {:induction false} ContiguousIsKept(records: seq<Record>)
    requires Contiguous(records)
    ensures Written(Grouped(records)) == records
  {
    if records != [] {
      var before, r := records[..|records| - 1], records[|records| - 1];
      assert records == before + [r];
      ContiguousIsKept(before);
      NextRecordComesLast(before, r);
    }
  }

  /** The export keeps the order of the records exactly when those of one kind stand together. */
  lemma OrderSurvivesExactly(records: seq<Record>)
    ensures Written(Grouped(records)) == records <==> Contiguous(records)
  {
    if Written(Grouped(records)) == records {
      GroupedIsWellFormed(records);
      WrittenIsContiguous(Grouped(records));
    }
    if Contiguous(records) {
      ContiguousIsKept(records);
    }
  }

  lemma InWritten(sections: seq<Section>, p: nat, r: Record)
    requires p < |sections| && r in sections[p].records
    ensures r in Written(sections)
  {
    if p > 0 {
      InWritten(sections[1..], p - 1, r);
    }
  }

  lemma {:induction false} ExportHasOneKind(kind: string, rows: seq<Row>, start: Option<int>, end: Option<int>)
    ensures forall r :: r in Export(kind, rows, start, end) ==> r.kind == kind
  {
    if rows != [] {
      ExportHasOneKind(kind, rows[1..], start, end);
    }
  }

  /**
    Whatever the gateway returns and whatever the dates, the export writes every collected record once,
    in collected order.
   */
  lemma ExportWritesTheCollectedOrder(exportType: string, welfare: seq<Row>, tax: seq<Row>, identity: seq<Row>,
                                      currency: seq<Row>, transfers: seq<Row>, start: Option<int>, end: Option<int>)
    ensures
      var records := Collected(exportType, welfare, tax, identity, currency, transfers, start, end);
      Written(Grouped(records)) == records
  {
    var records := Collected(exportType, welfare, tax, identity, currency, transfers, start, end);
    ExportHasOneKind("welfare", welfare, start, end);
    ExportHasOneKind("tax", tax, start, end);
    ExportHasOneKind("identity", identity, start, end);
    ExportHasOneKind("currency", currency, start, end);
    ExportHasOneKind("transfer", transfers, start, end);
    assert Contiguous(records);
    OrderSurvivesExactly(records);
  }

  /** Without dates everything is kept; with dates what has a time not before the start and not after the end. */
  function InDates(start: Option<int>, end: Option<int>): Row -> bool {
    (r: Row) =>
      if start.None? && end.None? then true
      else r.at.Some? && !(start.Some? && r.at.value < start.value) && !(end.Some? && end.value < r.at.value)
  }

  function OfType(kind: string): Row -> Record {
    (r: Row) => Record(kind, r.id)
  }

  /**
    The part of the export with one type of records: what is in the dates of what was fetched, if the
    type is wanted.
   */
  predicate PartOf(part: seq<Record>, wanted: bool, kind: string, rows: seq<Row>, start: Option<int>,
                   end: Option<int>) {
    if wanted then Chosen(rows, InDates(start, end), OfType(kind), part) else part == []
  }

  lemma {:induction false} ExportSnoc(kind: string, rows: seq<Row>, row: Row, start: Option<int>, end: Option<int>)
    ensures Export(kind, rows + [row], start, end) ==
            if InRange(row, start, end) then Export(kind, rows, start, end) + [Record(kind, row.id)]
            else Export(kind, rows, start, end)
  {
    if rows == [] {
      assert rows + [row] == [row] && [row][1..] == [];
    } else {
      assert (rows + [row])[1..] == rows[1..] + [row] && (rows + [row])[0] == rows[0];
      ExportSnoc(kind, rows[1..], row, start, end);
      var first := if InRange(rows[0], start, end) then [Record(kind, rows[0].id)] else [];
      var rest := Export(kind, rows[1..], start, end);
      assert first + (rest + [Record(kind, row.id)]) == first + rest + [Record(kind, row.id)];
    }
  }

  lemma {:induction false} ExportIsPart(kind: string, rows: seq<Row>, start: Option<int>, end: Option<int>)
    ensures Chosen(rows, InDates(start, end), OfType(kind), Export(kind, rows, start, end))
  {
    if rows != [] {
      var front, last := rows[..|rows| - 1], rows[|rows| - 1];
      ExportIsPart(kind, front, start, end);
      ChosenSnoc(front, InDates(start, end), OfType(kind), Export(kind, front, start, end), last);
      ExportSnoc(kind, front, last, start, end);
      assert rows == front + [last];
      assert InDates(start, end)(last) == InRange(last, start, end) && OfType(kind)(last) == Record(kind, last.id);
    }
  }

  /** The export is, type after type in a fixed order, the wanted records of the date range in fetched order. */
  lemma CollectedExactly(exportType: string, welfare: seq<Row>, tax: seq<Row>, identity: seq<Row>, currency: seq<Row>,
                         transfers: seq<Row>, start: Option<int>, end: Option<int>)
    returns (w: seq<Record>, t: seq<Record>, i: seq<Record>, c: seq<Record>, x: seq<Record>)
    ensures Collected(exportType, welfare, tax, identity, currency, transfers, start, end) == w + t + i + c + x
    ensures PartOf(w, exportType == "all" || exportType == "welfare", "welfare", welfare, start, end)
    ensures PartOf(t, exportType == "all" || exportType == "tax", "tax", tax, start, end)
    ensures PartOf(i, exportType == "all" || exportType == "identity", "identity", identity, start, end)
    ensures PartOf(c, exportType == "all" || exportType == "currency", "currency", currency, start, end)
    ensures PartOf(x, exportType == "all" || exportType == "transfers", "transfer", transfers, start, end)
  {
    var all := exportType == "all";
    w := if all || exportType == "welfare" then Export("welfare", welfare, start, end) else [];
    t := if all || exportType == "tax" then Export("tax", tax, start, end) else [];
    i := if all || exportType == "identity" then Export("identity", identity, start, end) else [];
    c := if all || exportType == "currency" then Export("currency", currency, start, end) else [];
    x := if all || exportType == "transfers" then Export("transfer", transfers, start, end) else [];
    ExportIsPart("welfare", welfare, start, end);
    ExportIsPart("tax", tax, start, end);
    ExportIsPart("identity", identity, start, end);
    ExportIsPart("currency", currency, start, end);
    ExportIsPart("transfer", transfers, start, end);
  }
}
