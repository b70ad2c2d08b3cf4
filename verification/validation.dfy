/** Column checks and the flattening of raw rows into validated events and
    payments. Every failure aborts: there is no row-level skipping. */
module Validation {
  import opened Records

  const EventColumns: seq<string> := ["day", "user_id", "event_data"]
  const PaymentColumns: seq<string> := ["pay_date", "user_id", "value_prop", "total"]

  /** The required columns absent from `columns`, in the order required. */
  function Missing(columns: seq<string>, required: seq<string>): (m: seq<string>)
    ensures forall c :: c in m <==> c in required && c !in columns
    ensures |m| <= |required|
    ensures |m| == 0 <==> forall c :: c in required ==> c in columns
  {
    if |required| == 0 then []
    else
      var rest := Missing(columns, required[1..]);
      assert forall c :: c in required <==> c == required[0] || c in required[1..];
      if required[0] in columns then rest else [required[0]] + rest
  }

  /** `_validar_columnas`: a MissingColumns error naming every absent
      required column, or None when all are present. */
  function CheckColumns(columns: seq<string>, required: seq<string>, table: string): (e: Option<Error>)
    ensures e.None? <==> forall c :: c in required ==> c in columns
    ensures e.Some? ==> e.value.MissingColumns? && e.value.table == table
    ensures e.Some? ==> forall c :: c in e.value.missing <==> c in required && c !in columns
  {
    var m := Missing(columns, required);
    if |m| > 0 then Some(MissingColumns(table, m)) else None
  }

  // ------------------------------------------------------------- events

  /** Every `event_data` is a mapping. */
  predicate AllMappings(rows: seq<RawEvent>) {
    forall i :: 0 <= i < |rows| ==> rows[i].eventData.Mapping?
  }

  /** Every day converted to a valid date. */
  predicate AllDays(rows: seq<RawEvent>) {
    forall i :: 0 <= i < |rows| ==> rows[i].day.Some?
  }

  /** No user is null. */
  predicate AllUsers(rows: seq<RawEvent>) {
    forall i :: 0 <= i < |rows| ==> rows[i].user.Some?
  }

  /** A raw event that passed validation is well formed. */
  predicate WellFormed(raw: RawEvent) {
    raw.eventData.Mapping? && raw.day.Some? && raw.user.Some?
  }

  /** The flat event of a valid raw event: `value_prop` and `position` are
      read from the mapping, None when the key is absent. */
  function Flatten(raw: RawEvent): (e: Event)
    requires WellFormed(raw)
  {
    Event(raw.day.value, raw.user.value, raw.eventData.valueProp, raw.eventData.position)
  }

  function FlattenAll(rows: seq<RawEvent>): (r: seq<Event>)
    requires forall i :: 0 <= i < |rows| ==> WellFormed(rows[i])
    ensures |r| == |rows|
    ensures forall i :: 0 <= i < |rows| ==> r[i] == Flatten(rows[i])
  {
    if |rows| == 0 then []
    else
      assert forall i :: 1 <= i < |rows| ==> rows[1..][i - 1] == rows[i];
      [Flatten(rows[0])] + FlattenAll(rows[1..])
  }

  /** `normalizar_eventos`: check the columns, then that every `event_data`
      is a mapping, then that no day is null or invalid, then that no user
      is null; the first check that fails decides the error. */
  function NormalizeEvents(t: Table<RawEvent>): (r: Result<seq<Event>>)
    ensures r.Ok? <==>
      (forall c :: c in EventColumns ==> c in t.columns) &&
      forall i :: 0 <= i < |t.rows| ==> WellFormed(t.rows[i])
    ensures r.Ok? ==> |r.value| == |t.rows|
    ensures r.Ok? ==> forall i :: 0 <= i < |t.rows| ==>
        r.value[i].day == t.rows[i].day.value && r.value[i].user == t.rows[i].user.value &&
        r.value[i].valueProp == t.rows[i].eventData.valueProp && r.value[i].position == t.rows[i].eventData.position
    ensures r.Err? && r.error.MissingColumns? <==> exists c :: c in EventColumns && c !in t.columns
    ensures r == Err(EventDataNotMapping) <==>
      (forall c :: c in EventColumns ==> c in t.columns) &&
      exists i :: 0 <= i < |t.rows| && t.rows[i].eventData.NotMapping?
    ensures r == Err(InvalidDay) <==>
      (forall c :: c in EventColumns ==> c in t.columns) &&
      (forall i :: 0 <= i < |t.rows| ==> t.rows[i].eventData.Mapping?) &&
      exists i :: 0 <= i < |t.rows| && t.rows[i].day.None?
    ensures r == Err(NullUser) <==>
      (forall c :: c in EventColumns ==> c in t.columns) &&
      (forall i :: 0 <= i < |t.rows| ==> t.rows[i].eventData.Mapping? && t.rows[i].day.Some?) &&
      exists i :: 0 <= i < |t.rows| && t.rows[i].user.None?
  {
    var missing := CheckColumns(t.columns, EventColumns, "eventos");
    if missing.Some? then Err(missing.value)
    else if !AllMappings(t.rows) then Err(EventDataNotMapping)
    else if !AllDays(t.rows) then Err(InvalidDay)
    else if !AllUsers(t.rows) then Err(NullUser)
    else Ok(FlattenAll(t.rows))
  }

  // ----------------------------------------------------------- payments

  /** Every pay date converted to a valid date. */
  predicate AllPayDates(rows: seq<RawPayment>) {
    forall i :: 0 <= i < |rows| ==> rows[i].payDate.Some?
  }

  /** Every total converted to a number. */
  predicate AllAmounts(rows: seq<RawPayment>) {
    forall i :: 0 <= i < |rows| ==> rows[i].total.Some?
  }

  function PaymentsOf(rows: seq<RawPayment>): (r: seq<Payment>)
    requires forall i :: 0 <= i < |rows| ==> rows[i].payDate.Some? && rows[i].total.Some?
    ensures |r| == |rows|
    ensures forall i :: 0 <= i < |rows| ==>
      r[i] == Payment(rows[i].payDate.value, rows[i].user, rows[i].valueProp, rows[i].total.value)
  {
    if |rows| == 0 then []
    else
      assert forall i :: 1 <= i < |rows| ==> rows[1..][i - 1] == rows[i];
      var p := rows[0];
      [Payment(p.payDate.value, p.user, p.valueProp, p.total.value)] + PaymentsOf(rows[1..])
  }

  /** The payment table: check the columns, then that every pay date is a
      valid date, then that every total is numeric. User and offer are
      passed through unchecked. */
  function NormalizePayments(t: Table<RawPayment>): (r: Result<seq<Payment>>)
    ensures r.Ok? <==>
      (forall c :: c in PaymentColumns ==> c in t.columns) &&
      forall i :: 0 <= i < |t.rows| ==> t.rows[i].payDate.Some? && t.rows[i].total.Some?
    ensures r.Ok? ==> |r.value| == |t.rows|
    ensures r.Ok? ==> forall i :: 0 <= i < |t.rows| ==>
        r.value[i].day == t.rows[i].payDate.value && r.value[i].user == t.rows[i].user &&
        r.value[i].valueProp == t.rows[i].valueProp && r.value[i].amount == t.rows[i].total.value
    ensures r.Err? && r.error.MissingColumns? <==> exists c :: c in PaymentColumns && c !in t.columns
    ensures r == Err(InvalidPayDate) <==>
      (forall c :: c in PaymentColumns ==> c in t.columns) &&
      exists i :: 0 <= i < |t.rows| && t.rows[i].payDate.None?
    ensures r == Err(NonNumericAmount) <==>
      (forall c :: c in PaymentColumns ==> c in t.columns) &&
      (forall i :: 0 <= i < |t.rows| ==> t.rows[i].payDate.Some?) &&
      exists i :: 0 <= i < |t.rows| && t.rows[i].total.None?
  {
    var missing := CheckColumns(t.columns, PaymentColumns, "pays.csv");
    if missing.Some? then Err(missing.value)
    else if !AllPayDates(t.rows) then Err(InvalidPayDate)
    else if !AllAmounts(t.rows) then Err(NonNumericAmount)
    else Ok(PaymentsOf(t.rows))
  }
}
