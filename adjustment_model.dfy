/** The Adjustment collection (models/Adjustment.ts): a named range of day
    keys with a non-negative number of reduction minutes. The schema requires every field, trims the name and refuses a negative
    reduction; its index on (startDate, endDate) only speeds queries up and is
    not unique, so the schema by itself lets ranges overlap. */
module AdjustmentModel {
  import opened Wrappers
  import opened JsString
  import opened Seqs

  datatype Adjustment = Adjustment(
    id: DocId,
    name: string,
    startDate: string,
    endDate: string,
    reductionMinutes: int)

  /** The fields handed to `Adjustment.create`. */
  datatype AdjustmentData = AdjustmentData(
    name: string,
    startDate: string,
    endDate: string,
    reductionMinutes: int)

  function HasId(id: DocId): Adjustment -> bool {
    (a: Adjustment) => a.id == id
  }

  function OtherThan(id: DocId): Adjustment -> bool {
    (a: Adjustment) => a.id != id
  }

  /** A document the schema accepts. */
  predicate Conforms(a: Adjustment) {
    a.name != "" && Trim(a.name) == a.name && a.startDate != "" && a.endDate != ""
    && a.reductionMinutes >= 0
  }

  /** The validators pass on `data` once `trim` has been applied to its name. */
  predicate Admits(data: AdjustmentData) {
    Trim(data.name) != "" && data.startDate != "" && data.endDate != "" && data.reductionMinutes >= 0
  }

  function ToDocument(data: AdjustmentData, id: DocId): Adjustment {
    Adjustment(id, Trim(data.name), data.startDate, data.endDate, data.reductionMinutes)
  }

  function IdsDiffer(): (Adjustment, Adjustment) -> bool {
    (a: Adjustment, b: Adjustment) => a.id != b.id
  }

  /** The collection's own invariant: documents conform, ids are below the
      next id and no two documents share one. */
  predicate WellFormed(records: seq<Adjustment>, nextId: DocId) {
    (forall a :: a in records ==> Conforms(a) && a.id < nextId)
    && Pairwise(records, IdsDiffer())
  }

  /** `Adjustment.create(data)`: the validators, then the insert. */
  function CreateResult(nextId: DocId, data: AdjustmentData): Result<Adjustment> {
    if Admits(data) then Ok(ToDocument(data, nextId)) else Err(ValidationError)
  }

  /** A create fails only on the validators, stores the trimmed document under
      the next id, and keeps the collection well-formed. */
  lemma CreateKeepsWellFormed(records: seq<Adjustment>, nextId: DocId, data: AdjustmentData)
    requires WellFormed(records, nextId)
    ensures var r := CreateResult(nextId, data);
      (r.Ok? <==> Admits(data))
      && (r.Ok? ==> r.value == ToDocument(data, nextId)
                    && r.value.id == nextId && r.value.name == Trim(data.name)
                    && WellFormed(records + [r.value], nextId + 1))
  {
    if Admits(data) {
      TrimIdempotent(data.name);
      PairwiseSnoc(records, ToDocument(data, nextId), IdsDiffer());
    }
  }

  /** Removing documents keeps the collection's invariant. */
  lemma FilterKeepsWellFormed(records: seq<Adjustment>, nextId: DocId, p: Adjustment -> bool)
    requires WellFormed(records, nextId)
    ensures WellFormed(Filter(records, p), nextId)
  {
    FilterKeepsPairwise(records, p, IdsDiffer());
  }

  class AdjustmentCollection {
    var records: seq<Adjustment>
    var nextId: DocId

    ghost predicate Valid()
      reads this
    {
      WellFormed(records, nextId)
    }

    constructor ()
      ensures Valid() && records == []
    {
      records := [];
      nextId := 0;
    }

    /** `find(filter)`: the matching documents in stored order. */
    method Find(p: Adjustment -> bool) returns (r: seq<Adjustment>)
      ensures r == Filter(records, p)
    {
      r := SelectAll(records, p);
    }

    /** `findOne(filter)` and `findById(id)`: the first matching document. */
    method FindOne(p: Adjustment -> bool) returns (r: Option<Adjustment>)
      ensures r.None? <==> FindFirst(records, p).None?
      ensures r.Some? ==> r.value == records[FindFirst(records, p).value]
    {
      var i := SelectFirst(records, p);
      r := if i.Some? then Some(records[i.value]) else None;
    }

    /** `create(data)`. */
    method Create(data: AdjustmentData) returns (r: Result<Adjustment>)
      requires Valid()
      modifies this
      ensures Valid()
      ensures r == CreateResult(old(nextId), data)
      ensures records == (if r.Ok? then old(records) + [r.value] else old(records))
      ensures nextId == (if r.Ok? then old(nextId) + 1 else old(nextId))
    {
      CreateKeepsWellFormed(records, nextId, data);
      if !Admits(data) {
        return Err(ValidationError);
      }
      var doc := ToDocument(data, nextId);
      records := records + [doc];
      nextId := nextId + 1;
      r := Ok(doc);
    }

    /** `findByIdAndDelete(id)`. */
    method FindByIdAndDelete(id: DocId)
      requires Valid()
      modifies this
      ensures Valid() && nextId == old(nextId)
      ensures records == Filter(old(records), OtherThan(id))
    {
      var kept := Find(OtherThan(id));
      FilterKeepsWellFormed(records, nextId, OtherThan(id));
      records := kept;
    }
  }
}
