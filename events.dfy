/**
 * Normalisation of the raw event log (scripts/ecommerce-full-etl.py, the
 * `events_processed` select/filter and the `event_date` column).
 */
module Events {
  import opened Options
  import opened Casts

  /** A row of the `events` catalog table. */
  datatype RawEvent = RawEvent(
    timestamp: int,        // epoch milliseconds
    visitorid: int,
    event: string,
    itemid: int,
    transactionid: string) // "" when the event has no transaction

  /**
   * A normalised event. `eventTimeMs` stands for `event_time`, the same
   * instant in epoch milliseconds; `eventDate` is its `yyyy-MM-dd` rendering.
   */
  datatype Event = Event(
    eventTimeMs: int,
    visitorId: int,
    eventType: string,
    itemId: int,
    transactionId: Option<int>,
    eventDate: string)

  const TrackedEventTypes: set<string> := {"view", "addtocart", "transaction"}

  predicate IsTracked(r: RawEvent) { r.event in TrackedEventTypes }

  /**
   * The select of one row plus the `event_date` column; `dateOf` is the
   * session-time-zone calendar date of an epoch-millisecond instant.
   */
  function NormalizeEvent(r: RawEvent, dateOf: int -> string): (e: Event)
    ensures e.eventTimeMs == r.timestamp && e.visitorId == r.visitorid
    ensures e.eventType == r.event && e.itemId == r.itemid
    ensures e.transactionId == None <==> r.transactionid == "" || CastBigint(r.transactionid) == None
    ensures e.transactionId.Some? ==> e.transactionId == CastBigint(r.transactionid)
    ensures e.eventDate == dateOf(r.timestamp)
  {
    Event(r.timestamp, r.visitorid, r.event, r.itemid, EmptyAsAbsent(r.transactionid), dateOf(r.timestamp))
  }

  /** `events_with_partitions`: normalise every row, keep the tracked types. */
  function NormalizeEvents(raws: seq<RawEvent>, dateOf: int -> string): (r: seq<Event>)
    ensures |r| <= |raws|
    ensures forall i :: 0 <= i < |r| ==> r[i].eventType in TrackedEventTypes
    decreases |raws|
  {
    if raws == [] then []
    else
      (if IsTracked(raws[0]) then [NormalizeEvent(raws[0], dateOf)] else [])
      + NormalizeEvents(raws[1..], dateOf)
  }

  /** Each listed position holds a tracked raw event whose normalisation is the matching output. */
  ghost predicate Sourced(raws: seq<RawEvent>, dateOf: int -> string, out: seq<Event>, idx: seq<int>)
  {
    && |idx| == |out|
    && forall k :: 0 <= k < |idx| ==>
         0 <= idx[k] < |raws| && IsTracked(raws[idx[k]]) && out[k] == NormalizeEvent(raws[idx[k]], dateOf)
  }

  ghost predicate Increasing(idx: seq<int>)
  {
    forall k, l :: 0 <= k < l < |idx| ==> idx[k] < idx[l]
  }

  /** Every tracked raw position is listed. */
  ghost predicate CoversTracked(raws: seq<RawEvent>, idx: seq<int>)
  {
    forall i :: 0 <= i < |raws| && IsTracked(raws[i]) ==> i in idx
  }

  /**
   * `idx` lists, in increasing order, exactly the positions of the tracked
   * raw events, and `out` is their normalisations in that order.
   */
  ghost predicate KeptInOrder(raws: seq<RawEvent>, dateOf: int -> string, out: seq<Event>, idx: seq<int>)
  {
    Sourced(raws, dateOf, out, idx) && Increasing(idx) && CoversTracked(raws, idx)
  }

  /** Normalising a concatenation normalises each part. */
  lemma {:induction false} NormalizeEventsAppend(a: seq<RawEvent>, b: seq<RawEvent>, dateOf: int -> string)
    ensures NormalizeEvents(a + b, dateOf) == NormalizeEvents(a, dateOf) + NormalizeEvents(b, dateOf)
    decreases |a|
  {
    if a != [] {
      assert (a + b)[0] == a[0];
      assert (a + b)[1..] == a[1..] + b;
      NormalizeEventsAppend(a[1..], b, dateOf);
    } else {
      assert a + b == b;
    }
  }

  /** One event is kept exactly when its type is view, addtocart or transaction. */
  lemma NormalizeSingleEvent(r: RawEvent, dateOf: int -> string)
    ensures NormalizeEvents([r], dateOf) == (if r.event in {"view", "addtocart", "transaction"} then [NormalizeEvent(r, dateOf)] else [])
  {
    assert [r][1..] == [];
  }

  /** The kept events are exactly the tracked ones, in input order. */
  lemma {:induction false} NormalizeEventsKeepsOrder(raws: seq<RawEvent>, dateOf: int -> string)
    ensures exists idx :: KeptInOrder(raws, dateOf, NormalizeEvents(raws, dateOf), idx)
    decreases |raws|
  {
    if raws == [] {
      var none: seq<int> := [];
      assert KeptInOrder(raws, dateOf, NormalizeEvents(raws, dateOf), none);
    } else {
      NormalizeEventsKeepsOrder(raws[1..], dateOf);
      var rest := NormalizeEvents(raws[1..], dateOf);
      var idx' :| KeptInOrder(raws[1..], dateOf, rest, idx');
      KeptInOrderCons(raws, dateOf, rest, idx');
      assert NormalizeEvents(raws, dateOf) == ConsOutput(raws, dateOf, rest);
    }
  }

  /** The positions of `raws[1..]`, shifted by one, after position 0 when that is kept. */
  function ConsPositions(keepFirst: bool, idx': seq<int>): (idx: seq<int>)
    ensures |idx| == |idx'| + (if keepFirst then 1 else 0)
    ensures keepFirst ==> idx[0] == 0
    ensures forall k :: (if keepFirst then 1 else 0) <= k < |idx| ==>
              idx[k] == idx'[k - (if keepFirst then 1 else 0)] + 1
  {
    (if keepFirst then [0] else []) + seq(|idx'|, k requires 0 <= k < |idx'| => idx'[k] + 1)
  }

  /** The output of `raws` for its head, followed by that of `raws[1..]`. */
  function ConsOutput(raws: seq<RawEvent>, dateOf: int -> string, rest: seq<Event>): seq<Event>
    requires raws != []
  {
    (if IsTracked(raws[0]) then [NormalizeEvent(raws[0], dateOf)] else []) + rest
  }

  /** Extends the position list of `raws[1..]` to one of `raws`. */
  lemma KeptInOrderCons(raws: seq<RawEvent>, dateOf: int -> string, rest: seq<Event>, idx': seq<int>)
    requires raws != [] && KeptInOrder(raws[1..], dateOf, rest, idx')
    ensures KeptInOrder(raws, dateOf, ConsOutput(raws, dateOf, rest), ConsPositions(IsTracked(raws[0]), idx'))
  {
    ConsSourced(raws, dateOf, rest, idx');
    ConsIncreasing(IsTracked(raws[0]), idx');
    ConsCovers(raws, idx');
  }

  lemma ConsSourced(raws: seq<RawEvent>, dateOf: int -> string, rest: seq<Event>, idx': seq<int>)
    requires raws != [] && Sourced(raws[1..], dateOf, rest, idx')
    ensures Sourced(raws, dateOf, ConsOutput(raws, dateOf, rest), ConsPositions(IsTracked(raws[0]), idx'))
  {
    var idx := ConsPositions(IsTracked(raws[0]), idx');
    var out := ConsOutput(raws, dateOf, rest);
    var h := if IsTracked(raws[0]) then 1 else 0;
    forall k | 0 <= k < |idx|
      ensures 0 <= idx[k] < |raws| && IsTracked(raws[idx[k]]) && out[k] == NormalizeEvent(raws[idx[k]], dateOf)
    {
      if k >= h {
        assert out[k] == rest[k - h];
        assert raws[1..][idx'[k - h]] == raws[idx[k]];
      }
    }
  }

  lemma ConsIncreasing(keepFirst: bool, idx': seq<int>)
    requires Increasing(idx') && forall k :: 0 <= k < |idx'| ==> idx'[k] >= 0
    ensures Increasing(ConsPositions(keepFirst, idx'))
  {
  }

  lemma ConsCovers(raws: seq<RawEvent>, idx': seq<int>)
    requires raws != [] && CoversTracked(raws[1..], idx')
    ensures CoversTracked(raws, ConsPositions(IsTracked(raws[0]), idx'))
  {
    var idx := ConsPositions(IsTracked(raws[0]), idx');
    var h := if IsTracked(raws[0]) then 1 else 0;
    forall i | 0 <= i < |raws| && IsTracked(raws[i]) ensures i in idx {
      if i > 0 {
        assert raws[1..][i - 1] == raws[i];
        var k :| 0 <= k < |idx'| && idx'[k] == i - 1;
        assert idx[k + h] == i;
      } else {
        assert idx[0] == 0;
      }
    }
  }
}
