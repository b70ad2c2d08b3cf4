/** `construir_dataset` without its file handling: validate the three
    inputs in order, then assemble the dataset from the valid rows. */
module Dataset {
  import opened Records
  import opened Validation
  import opened Ordering
  import opened Assembly

  /** Normalize the impressions, then the taps, then the payments; the first
      failure is the result. Otherwise the features of the target week, as
      the pipeline computes them. */
  function BuildDataset(rawPrints: Table<RawEvent>, rawTaps: Table<RawEvent>, rawPays: Table<RawPayment>): (r: Result<seq<FeatureRow>>)
    ensures r.Ok? <==> NormalizeEvents(rawPrints).Ok? && NormalizeEvents(rawTaps).Ok? && NormalizePayments(rawPays).Ok?
    ensures NormalizeEvents(rawPrints).Err? ==> r == Err(NormalizeEvents(rawPrints).error)
    ensures NormalizeEvents(rawPrints).Ok? && NormalizeEvents(rawTaps).Err? ==> r == Err(NormalizeEvents(rawTaps).error)
    ensures NormalizeEvents(rawPrints).Ok? && NormalizeEvents(rawTaps).Ok? && NormalizePayments(rawPays).Err? ==>
      r == Err(NormalizePayments(rawPays).error)
    ensures r.Ok? ==> Sorted(r.value)
    ensures r.Ok? ==> (|r.value| == 0 <==> |rawPrints.rows| == 0)
  {
    var prints :- NormalizeEvents(rawPrints);
    var taps :- NormalizeEvents(rawTaps);
    var pays :- NormalizePayments(rawPays);
    Ok(Assemble(prints, taps, pays))
  }

  /** A missing impression column is reported against the event table
      before anything else is looked at. */
  lemma MissingPrintColumn(rawPrints: Table<RawEvent>, rawTaps: Table<RawEvent>, rawPays: Table<RawPayment>, c: string)
    requires c in EventColumns && c !in rawPrints.columns
    ensures BuildDataset(rawPrints, rawTaps, rawPays).Err?
    ensures BuildDataset(rawPrints, rawTaps, rawPays).error.MissingColumns?
    ensures BuildDataset(rawPrints, rawTaps, rawPays).error.table == "eventos"
    ensures c in BuildDataset(rawPrints, rawTaps, rawPays).error.missing
  {
    var m := CheckColumns(rawPrints.columns, EventColumns, "eventos");
    assert m.Some?;
  }

  /** A successful run holds, sorted, one row per impression of the week
      ending on the latest impression day, each with the as-written label
      and features. */
  lemma BuildDatasetRows(rawPrints: Table<RawEvent>, rawTaps: Table<RawEvent>, rawPays: Table<RawPayment>)
    requires BuildDataset(rawPrints, rawTaps, rawPays).Ok?
    ensures var prints := NormalizeEvents(rawPrints).value;
      BuildDataset(rawPrints, rawTaps, rawPays).value ==
        SortRows(AsWrittenRows(prints, NormalizeEvents(rawTaps).value, NormalizePayments(rawPays).value, TargetWeek(prints)))
  {
    AssembleRows(NormalizeEvents(rawPrints).value, NormalizeEvents(rawTaps).value, NormalizePayments(rawPays).value);
  }
}
