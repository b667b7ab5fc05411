/**
 * The two left joins that enrich the events, and the whole transform of the
 * job (scripts/ecommerce-full-etl.py, `enriched_events` and `final_events`).
 */
module Enrichment {
  import opened Options
  import opened Casts
  import opened Events
  import opened PropertySnapshot
  import opened CategoryHierarchy

  const NoAttributes: ItemAttributes := ItemAttributes(None, None, None)

  /** A row of `enriched_events`: an event with the pivot columns of its item. */
  datatype AttributedEvent = AttributedEvent(event: Event, attributes: ItemAttributes)

  /**
   * A row of `final_events`: the columns of `category_hierarchy` are null
   * when no category row matched.
   */
  datatype EnrichedEvent = EnrichedEvent(
    event: Event,
    attributes: ItemAttributes,
    categoryId: Option<int>,
    parentCategoryId: Option<int>,
    categoryPath: Option<seq<int>>)

  /** `events.join(important_props, "item_id", "left")`; item ids are unique in the pivot. */
  function JoinItemAttributes(events: seq<Event>, attrs: map<int, ItemAttributes>): (r: seq<AttributedEvent>)
    ensures |r| == |events|
    ensures forall i :: 0 <= i < |r| ==> r[i].event == events[i]
    ensures forall i :: 0 <= i < |r| ==>
      r[i].attributes == if events[i].itemId in attrs then attrs[events[i].itemId] else NoAttributes
  {
    seq(|events|, i requires 0 <= i < |events| =>
      AttributedEvent(events[i], if events[i].itemId in attrs then attrs[events[i].itemId] else NoAttributes))
  }

  /** `col("categoryid").cast("bigint")`, the key of the second join. */
  function CategoryKey(a: ItemAttributes): (k: Option<int>)
    ensures k.Some? <==> a.categoryid.Some? && CastBigint(a.categoryid.value).Some?
  {
    if a.categoryid.Some? then CastBigint(a.categoryid.value) else None
  }

  function JoinCategoryRow(e: AttributedEvent, hierarchy: Frame): (r: EnrichedEvent)
    ensures r.event == e.event && r.attributes == e.attributes
    ensures r.categoryPath.Some? <==> CategoryKey(e.attributes).Some? && CategoryKey(e.attributes).value in hierarchy
  {
    var key := CategoryKey(e.attributes);
    if key.Some? && key.value in hierarchy then
      EnrichedEvent(e.event, e.attributes, key, hierarchy[key.value].parent, Some(hierarchy[key.value].path))
    else
      EnrichedEvent(e.event, e.attributes, None, None, None)
  }

  /** The left join with `category_hierarchy` on the cast `categoryid`; category ids are unique. */
  function JoinCategoryHierarchy(events: seq<AttributedEvent>, hierarchy: Frame): (r: seq<EnrichedEvent>)
    ensures |r| == |events|
    ensures forall i :: 0 <= i < |r| ==> r[i] == JoinCategoryRow(events[i], hierarchy)
  {
    seq(|events|, i requires 0 <= i < |events| => JoinCategoryRow(events[i], hierarchy))
  }

  function EnrichEvents(events: seq<Event>, attrs: map<int, ItemAttributes>, hierarchy: Frame): (r: seq<EnrichedEvent>)
    ensures |r| == |events|
    ensures forall i :: 0 <= i < |r| ==> r[i].event == events[i]
  {
    JoinCategoryHierarchy(JoinItemAttributes(events, attrs), hierarchy)
  }

  /**
   * The joins keep every event exactly once and in place: an unmatched item
   * leaves the attributes null, an absent or uncastable `categoryid`, or one
   * with no hierarchy row, leaves the category columns null, and a matched
   * row carries the hierarchy row of that very category.
   */
  lemma EnrichEventsSpec(events: seq<Event>, attrs: map<int, ItemAttributes>, hierarchy: Frame, i: int)
    requires 0 <= i < |events|
    ensures var r := EnrichEvents(events, attrs, hierarchy);
      && |r| == |events|
      && r[i].event == events[i]
      && (events[i].itemId !in attrs ==> r[i].attributes == NoAttributes && r[i].categoryPath == None)
      && (events[i].itemId in attrs ==> r[i].attributes == attrs[events[i].itemId])
      && (r[i].categoryPath.Some? <==>
            r[i].attributes.categoryid.Some? && CastBigint(r[i].attributes.categoryid.value).Some?
            && CastBigint(r[i].attributes.categoryid.value).value in hierarchy)
      && (r[i].categoryPath.Some? ==>
            && r[i].categoryId == CastBigint(r[i].attributes.categoryid.value)
            && r[i].categoryId.value in hierarchy
            && r[i].categoryPath.value == hierarchy[r[i].categoryId.value].path
            && r[i].parentCategoryId == hierarchy[r[i].categoryId.value].parent)
      && (r[i].categoryPath.None? ==> r[i].categoryId == None && r[i].parentCategoryId == None)
  {
  }

  // ---- the whole transform ----

  /** The three datasets the job writes. */
  datatype JobOutput = JobOutput(
    enrichedEvents: seq<EnrichedEvent>,
    latestProperties: map<PropertyKey, PropertyRow>,
    categoryHierarchy: Frame)

  /** Category ids of the raw tree, taken to be unique. */
  predicate UniqueRawCategoryIds(cats: seq<RawCategory>)
  {
    forall i, j :: 0 <= i < j < |cats| ==> cats[i].categoryid != cats[j].categoryid
  }

  function RunJob(events: seq<RawEvent>, props: seq<RawProperty>, cats: seq<RawCategory>, dateOf: int -> string): (r: JobOutput)
    requires UniqueRawCategoryIds(cats)
    ensures |r.enrichedEvents| <= |events|
    ensures forall i :: 0 <= i < |r.enrichedEvents| ==> r.enrichedEvents[i].event.eventType in TrackedEventTypes
    ensures r.latestProperties.Keys == Keys(ProcessProperties(props))
    ensures r.categoryHierarchy.Keys == EdgeMap(CleanCategories(cats)).Keys
  {
    var latest := LatestSnapshot(ProcessProperties(props));
    var hierarchy := CategoryPaths(EdgeMap(CleanCategories(cats)));
    JobOutput(EnrichEvents(NormalizeEvents(events, dateOf), Pivot(latest), hierarchy), latest, hierarchy)
  }

  /**
   * End to end: one enriched row per tracked event, in order; its attributes
   * are the pivot of the latest properties of its item; a category path, when
   * present, belongs to a category of the tree, starts at that category and
   * has 1 to 6 entries.
   */
  lemma RunJobSpec(events: seq<RawEvent>, props: seq<RawProperty>, cats: seq<RawCategory>, dateOf: int -> string, i: int)
    requires UniqueRawCategoryIds(cats)
    ensures var out := RunJob(events, props, cats, dateOf);
      var normalized := NormalizeEvents(events, dateOf);
      && |out.enrichedEvents| == |normalized|
      && (0 <= i < |normalized| ==>
            var r := out.enrichedEvents[i];
            && r.event == normalized[i]
            && r.event.eventType in TrackedEventTypes
            && r.attributes == (if r.event.itemId in Pivot(out.latestProperties)
                                then Pivot(out.latestProperties)[r.event.itemId] else NoAttributes)
            && (r.categoryPath.Some? ==>
                  && r.categoryId.Some?
                  && (exists c :: c in cats && c.categoryid == r.categoryId.value)
                  && 1 <= |r.categoryPath.value| <= 6
                  && r.categoryPath.value[0] == r.categoryId.value))
  {
    var out := RunJob(events, props, cats, dateOf);
    var normalized := NormalizeEvents(events, dateOf);
    var es := CleanCategories(cats);
    assert UniqueCategoryIds(es);
    var edges := EdgeMap(es);
    CategoryPathsShape(edges);
    if 0 <= i < |normalized| {
      EnrichEventsSpec(normalized, Pivot(out.latestProperties), out.categoryHierarchy, i);
      assert normalized[i] in normalized;
      var r := out.enrichedEvents[i];
      if r.categoryPath.Some? {
        var c := r.categoryId.value;
        assert c in edges;
        var e :| e in es && e.categoryId == c;
        var k :| 0 <= k < |es| && es[k] == e;
        assert cats[k] in cats && cats[k].categoryid == c;
      }
    }
  }
}
