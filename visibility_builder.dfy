/** The builder of client/src/engine/visibility/VisibilityEngineBuilder.ts. It collects the
    systems a `VisibilityEngine` will run: each applied system becomes a ticker on the
    update list or the render list, and each entity finder a visibility system reads from
    gets one record, shared by all systems that use that finder. The engine, the distance
    checker, the records and the tickers are not modelled beyond what the builder puts
    into them; entities, finders, systems and providers are opaque handles. */
module VisibilityBuilder {
  import opened Wrappers
  import opened Geometry
  import PhysicalConstants

  type Handle = nat

  /** The one distance checker of a builder, made from the constructor's arguments. */
  datatype DistanceChecker = DistanceChecker(trackee: Handle, samplingRadius: Handle, updatingRadius: real)

  /** An `EntityFinderRecord`: the finder it records and the distance checker it uses. */
  datatype EntityFinderRecord = EntityFinderRecord(finder: Handle, distanceChecker: DistanceChecker)

  datatype SystemTicker =
    | RecordSystemTicker(visibilitySystem: Handle, record: EntityFinderRecord)
    | TickSystemTicker(tickSystem: Handle)

  /** The arguments `build` passes to the `VisibilityEngine` constructor. */
  datatype VisibilityEngine = VisibilityEngine(
    trackee: Handle,
    samplingRadius: Handle,
    onUpdateSystemTickers: seq<SystemTicker>,
    onRenderSystemTickers: seq<SystemTicker>,
    entityFinderRecords: seq<EntityFinderRecord>,
    distanceChecker: DistanceChecker)

  /** `asSequence(lists).any()` with no predicate: whether the sequence has an element. */
  function Any<T>(lists: seq<T>): bool
  {
    |lists| > 0
  }

  /** The guard of `build` as written: the update list, twice, in a two-element list. */
  function GuardAsWritten(onUpdate: seq<SystemTicker>, onRender: seq<SystemTicker>): bool
  {
    Any([onUpdate, onUpdate])
  }

  /** The guard `build` evidently means: some system was applied, to either list. */
  function Guard(onUpdate: seq<SystemTicker>, onRender: seq<SystemTicker>): (ok: bool)
    ensures ok <==> |onUpdate| + |onRender| > 0
  {
    Any(onUpdate + onRender)
  }

  /** The guard as written passes on every builder, so `build` never throws. */
  lemma GuardAsWrittenAlwaysPasses(onUpdate: seq<SystemTicker>, onRender: seq<SystemTicker>)
    ensures GuardAsWritten(onUpdate, onRender)
  {
    assert |[onUpdate, onUpdate]| == 2;
  }

  /** A builder to which no system was applied passes the guard as written but not the
      intended one. */
  lemma EmptyBuilderPassesGuardAsWritten()
    ensures GuardAsWritten([], []) && !Guard([], [])
  {
    GuardAsWrittenAlwaysPasses([], []);
  }

  /** The values of a map, taken in the given order of its keys. */
  function ValuesInOrder(records: map<Handle, EntityFinderRecord>, order: seq<Handle>): (r: seq<EntityFinderRecord>)
    requires forall k :: 0 <= k < |order| ==> order[k] in records
    ensures |r| == |order|
    ensures forall k :: 0 <= k < |order| ==> r[k] == records[order[k]]
  {
    if |order| == 0 then []
    else ValuesInOrder(records, order[..|order| - 1]) + [records[order[|order| - 1]]]
  }

  class VisibilityEngineBuilder {
    const trackee: Handle
    const samplingRadius: Handle
    const distanceChecker: DistanceChecker
    /** `entityFinderRecords`, a `Map`: its entries, and its keys in insertion order. */
    var entityFinderRecords: map<Handle, EntityFinderRecord>
    var finderOrder: seq<Handle>
    var onUpdateSystemTickers: seq<SystemTicker>
    var onRenderSystemTickers: seq<SystemTicker>

    /** One record per finder, kept under that finder, all with the builder's checker;
        the insertion order lists each finder once. */
    ghost predicate Valid()
      reads this
    {
      && NoDup(finderOrder)
      && (forall f :: f in entityFinderRecords <==> f in finderOrder)
      && (forall f :: f in entityFinderRecords ==>
            entityFinderRecords[f] == EntityFinderRecord(f, distanceChecker))
    }

    constructor (trackee: Handle, samplingRadius: Handle,
                 updatingRadius: real := PhysicalConstants.ENTITY_TRACKER_UPDATE_RADIUS)
      ensures Valid()
      ensures this.trackee == trackee && this.samplingRadius == samplingRadius
      ensures distanceChecker == DistanceChecker(trackee, samplingRadius, updatingRadius)
      ensures entityFinderRecords == map[] && finderOrder == []
      ensures onUpdateSystemTickers == [] && onRenderSystemTickers == []
    {
      this.trackee := trackee;
      this.samplingRadius := samplingRadius;
      distanceChecker := DistanceChecker(trackee, samplingRadius, updatingRadius);
      entityFinderRecords := map[];
      finderOrder := [];
      onUpdateSystemTickers := [];
      onRenderSystemTickers := [];
    }

    /** `addTicker`: pushes the ticker on the update list or the render list. */
    method AddTicker(ticker: SystemTicker, isOnUpdate: bool)
      modifies this
      ensures entityFinderRecords == old(entityFinderRecords) && finderOrder == old(finderOrder)
      ensures isOnUpdate ==> onUpdateSystemTickers == old(onUpdateSystemTickers) + [ticker]
                             && onRenderSystemTickers == old(onRenderSystemTickers)
      ensures !isOnUpdate ==> onRenderSystemTickers == old(onRenderSystemTickers) + [ticker]
                              && onUpdateSystemTickers == old(onUpdateSystemTickers)
    {
      if isOnUpdate {
        onUpdateSystemTickers := onUpdateSystemTickers + [ticker];
      } else {
        onRenderSystemTickers := onRenderSystemTickers + [ticker];
      }
    }

    /** `applyVisibilitySystem`: finds or makes the finder's record, then adds a ticker for
        the system and that record; returns the builder. */
    method ApplyVisibilitySystem(system: Handle, entityFinder: Handle, isOnUpdate: bool)
      returns (self: VisibilityEngineBuilder)
      requires Valid()
      modifies this
      ensures Valid() && self == this
      ensures entityFinder in old(entityFinderRecords) ==>
                entityFinderRecords == old(entityFinderRecords) && finderOrder == old(finderOrder)
      ensures entityFinder !in old(entityFinderRecords) ==>
                entityFinderRecords == old(entityFinderRecords)[entityFinder := EntityFinderRecord(entityFinder, distanceChecker)]
                && finderOrder == old(finderOrder) + [entityFinder]
      ensures var ticker := RecordSystemTicker(system, EntityFinderRecord(entityFinder, distanceChecker));
              if isOnUpdate then
                onUpdateSystemTickers == old(onUpdateSystemTickers) + [ticker]
                && onRenderSystemTickers == old(onRenderSystemTickers)
              else
                onRenderSystemTickers == old(onRenderSystemTickers) + [ticker]
                && onUpdateSystemTickers == old(onUpdateSystemTickers)
    {
      var entityFinderRecord: EntityFinderRecord;
      if entityFinder in entityFinderRecords {
        entityFinderRecord := entityFinderRecords[entityFinder];
      } else {
        entityFinderRecord := EntityFinderRecord(entityFinder, distanceChecker);
        assert entityFinder !in finderOrder;
        AppendNoDup(finderOrder, [entityFinder]);
        entityFinderRecords := entityFinderRecords[entityFinder := entityFinderRecord];
        finderOrder := finderOrder + [entityFinder];
      }
      AddTicker(RecordSystemTicker(system, entityFinderRecord), isOnUpdate);
      self := this;
    }

    /** `applyTickSystem`: adds a ticker for the system; returns the builder. */
    method ApplyTickSystem(system: Handle, isOnUpdate: bool) returns (self: VisibilityEngineBuilder)
      requires Valid()
      modifies this
      ensures Valid() && self == this
      ensures entityFinderRecords == old(entityFinderRecords) && finderOrder == old(finderOrder)
      ensures if isOnUpdate then
                onUpdateSystemTickers == old(onUpdateSystemTickers) + [TickSystemTicker(system)]
                && onRenderSystemTickers == old(onRenderSystemTickers)
              else
                onRenderSystemTickers == old(onRenderSystemTickers) + [TickSystemTicker(system)]
                && onUpdateSystemTickers == old(onUpdateSystemTickers)
    {
      AddTicker(TickSystemTicker(system), isOnUpdate);
      self := this;
    }

    /** `Array.from(entityFinderRecords.values())`: the records in the order their finders
        were first seen. */
    function RecordsInOrder(): (r: seq<EntityFinderRecord>)
      requires Valid()
      reads this
      ensures |r| == |finderOrder|
      ensures forall i :: 0 <= i < |r| ==> r[i] == EntityFinderRecord(finderOrder[i], distanceChecker)
    {
      ValuesInOrder(entityFinderRecords, finderOrder)
    }

    /** The records handed to the engine name each finder once, and every finder that was
        applied. */
    lemma RecordsPerFinder()
      requires Valid()
      ensures forall i, j :: 0 <= i < j < |RecordsInOrder()| ==>
                RecordsInOrder()[i].finder != RecordsInOrder()[j].finder
      ensures forall f :: f in entityFinderRecords <==>
                exists i :: 0 <= i < |RecordsInOrder()| && RecordsInOrder()[i].finder == f
    {
      var r := RecordsInOrder();
      forall f | f in entityFinderRecords
        ensures exists i :: 0 <= i < |r| && r[i].finder == f
      {
        var i :| 0 <= i < |finderOrder| && finderOrder[i] == f;
        assert r[i].finder == f;
      }
    }

    /** `build` as written: its guard never fails, so it always returns an engine. */
    method BuildAsWritten() returns (r: Option<VisibilityEngine>)
      requires Valid()
      ensures r == Some(VisibilityEngine(trackee, samplingRadius, onUpdateSystemTickers,
                                         onRenderSystemTickers, RecordsInOrder(), distanceChecker))
    {
      if !GuardAsWritten(onUpdateSystemTickers, onRenderSystemTickers) {
        assert false;
        return None;
      }
      return Some(VisibilityEngine(trackee, samplingRadius, onUpdateSystemTickers,
                                   onRenderSystemTickers, RecordsInOrder(), distanceChecker));
    }

    /** `build` with the intended guard: it throws ("No systems were applied", `None`)
        exactly when both ticker lists are empty, and otherwise hands the engine the
        tickers in call order and the records in first-registration order. */
    method Build() returns (r: Option<VisibilityEngine>)
      requires Valid()
      ensures r.None? <==> |onUpdateSystemTickers| == 0 && |onRenderSystemTickers| == 0
      ensures r.Some? ==> r.value == VisibilityEngine(trackee, samplingRadius, onUpdateSystemTickers,
                                                      onRenderSystemTickers, RecordsInOrder(), distanceChecker)
    {
      if !Guard(onUpdateSystemTickers, onRenderSystemTickers) {
        return None;
      }
      return Some(VisibilityEngine(trackee, samplingRadius, onUpdateSystemTickers,
                                   onRenderSystemTickers, RecordsInOrder(), distanceChecker));
    }
  }
}
