/** Records of the carousel feature pipeline: raw input rows, the flat event
    and payment rows produced by validation, the keyed metric tables the
    aggregator and the trailing window produce, and the output feature row.

    Days are day numbers (already-parsed calendar dates), identifiers are
    strings, and amounts are integers (cents), so that every sum is exact. */
module Records {

  type Day = int
  type Id = string

  datatype Option<+T> = None | Some(value: T)

  /** The failures that abort a run. */
  datatype Error =
    | MissingColumns(table: string, missing: seq<string>)
    | EventDataNotMapping
    | InvalidDay
    | NullUser
    | InvalidPayDate
    | NonNumericAmount
    | DuplicateDay

  /** Failure-compatible result, so stages compose with `:-`. */
  datatype Result<+T> = Ok(value: T) | Err(error: Error) {
    predicate IsFailure() {
      Err?
    }

    function PropagateFailure<U>(): Result<U>
      requires Err?
    {
      Err(error)
    }

    function Extract(): T
      requires Ok?
    {
      value
    }
  }

  // ---------------------------------------------------------------- raw input

  /** The `event_data` cell of a raw event: a mapping (whose keys may be
      absent) or anything else. */
  datatype EventData =
    | Mapping(valueProp: Option<Id>, position: Option<int>)
    | NotMapping

  /** One line of the impression or tap log. `day` is None when the cell is
      null or is not a valid date; `user` is None when the cell is null. */
  datatype RawEvent = RawEvent(day: Option<Day>, user: Option<Id>, eventData: EventData)

  /** One row of the payment table. `payDate` is None when it is not a valid
      date, `total` is None when it is not numeric. */
  datatype RawPayment = RawPayment(payDate: Option<Day>, user: Option<Id>, valueProp: Option<Id>, total: Option<int>)

  /** A loaded table: its column header and its rows. */
  datatype Table<R> = Table(columns: seq<string>, rows: seq<R>)

  // ------------------------------------------------------------ flat records

  /** A normalised impression or tap. */
  datatype Event = Event(day: Day, user: Id, valueProp: Option<Id>, position: Option<int>)

  /** A validated payment. User and offer are not checked for null. */
  datatype Payment = Payment(day: Day, user: Option<Id>, valueProp: Option<Id>, amount: int)

  /** A (user, offer) pair: the unit the trailing window works on. */
  datatype Group = Group(user: Id, valueProp: Id)

  /** The aggregation grain (user_id, value_prop, day). */
  datatype Key = Key(group: Group, day: Day)

  /** A row of a one-metric table keyed by (user, offer, day): a daily
      aggregate or a trailing-window value. */
  datatype MetricRow = MetricRow(key: Key, value: int)

  /** A row of the daily payment table: count and summed amount. */
  datatype PaymentRow = PaymentRow(key: Key, payments: int, amount: int)

  /** One output row: an impression of the target week with its label and
      its four historical features. */
  datatype FeatureRow = FeatureRow(
    day: Day, user: Id, valueProp: Option<Id>, position: Option<int>,
    clicked: int,
    printsPrev3w: int, tapsPrev3w: int, paymentsPrev3w: int, amountPrev3w: int)

  /** The grouping key of an event; None when the offer is null, in which
      case grouping skips the event. */
  function EventKey(e: Event): Option<Key> {
    match e.valueProp
    case Some(vp) => Some(Key(Group(e.user, vp), e.day))
    case None => None
  }

  /** The grouping key of a payment; None when user or offer is null. */
  function PaymentKey(p: Payment): Option<Key> {
    if p.user.Some? && p.valueProp.Some? then Some(Key(Group(p.user.value, p.valueProp.value), p.day))
    else None
  }

  /** The join key (day, user_id, value_prop) of a feature row. */
  function FeatureKey(f: FeatureRow): Option<Key> {
    match f.valueProp
    case Some(vp) => Some(Key(Group(f.user, vp), f.day))
    case None => None
  }

  /** The impression columns of a feature row, as an event. */
  function Base(f: FeatureRow): Event {
    Event(f.day, f.user, f.valueProp, f.position)
  }

  /** A fresh feature row for an impression; label and features not yet joined. */
  function BaseRow(e: Event): (f: FeatureRow)
    ensures Base(f) == e
    ensures FeatureKey(f) == EventKey(e)
  {
    FeatureRow(e.day, e.user, e.valueProp, e.position, 0, 0, 0, 0, 0)
  }
}
