/** The Holiday collection (models/Holiday.ts): the document shape, the
    schema's validators (required fields, `trim` on the name, the enum of
    types), its defaults, and the compound unique index on
    (dateString, type, userId). The collection is a class whose `records`
    field is reassigned by `create` and `findByIdAndDelete`. */
module HolidayModel {
  import opened Wrappers
  import opened EcmaTime
  import opened JsString
  import opened Seqs

  datatype HolidayType = Global | CutiBersama | Personal | Piket

  /** The type names as the API spells them. */
  function TypeName(t: HolidayType): string {
    match t
    case Global => "GLOBAL"
    case CutiBersama => "CUTI_BERSAMA"
    case Personal => "PERSONAL"
    case Piket => "PIKET"
  }

  /** The schema's enum as written: CUTI_BERSAMA is missing. */
  const SchemaTypesAsWritten: set<HolidayType> := {Global, Personal, Piket}

  /** The enum the rest of the application expects: all four types. */
  const SchemaTypesCorrected: set<HolidayType> := {Global, CutiBersama, Personal, Piket}

  /** A stored holiday. `date` is a time value; `userId` None is null. */
  datatype Holiday = Holiday(
    id: DocId,
    date: int,
    dateString: string,
    name: string,
    htype: HolidayType,
    isDeductible: bool,
    userId: Option<UserId>)

  /** The fields handed to `Holiday.create`. `date` is None for an Invalid
      Date, which the schema cannot cast. `isDeductible` and `userId` always
      arrive set, so the schema's defaults (true and null) never apply. */
  datatype HolidayData = HolidayData(
    date: Option<int>,
    dateString: string,
    name: string,
    htype: HolidayType,
    isDeductible: bool,
    userId: Option<UserId>)

  /** The key of the compound unique index. */
  datatype IndexKey = IndexKey(dateString: string, htype: HolidayType, userId: Option<UserId>)

  function KeyOf(h: Holiday): IndexKey {
    IndexKey(h.dateString, h.htype, h.userId)
  }

  function HasKey(k: IndexKey): Holiday -> bool {
    (h: Holiday) => KeyOf(h) == k
  }

  function HasId(id: DocId): Holiday -> bool {
    (h: Holiday) => h.id == id
  }

  function OtherThan(id: DocId): Holiday -> bool {
    (h: Holiday) => h.id != id
  }

  /** A document the schema accepts: every required field present and
      non-empty, the name trimmed, the type in the enum `types`. */
  predicate Conforms(h: Holiday, types: set<HolidayType>) {
    IsTimeValue(h.date) && h.dateString != "" && h.name != "" && Trim(h.name) == h.name
    && h.htype in types
  }

  /** The validators pass on `data` once `trim` has been applied to its name. */
  predicate Admits(data: HolidayData, types: set<HolidayType>) {
    data.date.Some? && IsTimeValue(data.date.value) && data.dateString != ""
    && Trim(data.name) != "" && data.htype in types
  }

  /** The document stored for admitted `data` under a fresh id. */
  function ToDocument(data: HolidayData, id: DocId): Holiday
    requires data.date.Some?
  {
    Holiday(id, data.date.value, data.dateString, Trim(data.name), data.htype, data.isDeductible, data.userId)
  }

  /** Two documents that the collection can hold side by side: different ids
      and different index keys. */
  predicate Apart(a: Holiday, b: Holiday) {
    a.id != b.id && KeyOf(a) != KeyOf(b)
  }

  function ApartPair(): (Holiday, Holiday) -> bool {
    (a: Holiday, b: Holiday) => Apart(a, b)
  }

  /** The collection's own invariant: every document conforms, ids are below
      the next id, and no two documents share an id or an index key. */
  predicate WellFormed(records: seq<Holiday>, nextId: DocId, types: set<HolidayType>) {
    (forall h :: h in records ==> Conforms(h, types) && h.id < nextId)
    && Pairwise(records, ApartPair())
  }

  /** `Holiday.create(data)`: validation first, then the unique index, then the insert. */
  function CreateResult(records: seq<Holiday>, nextId: DocId, types: set<HolidayType>, data: HolidayData)
    : Result<Holiday>
  {
    if !Admits(data, types) then Err(ValidationError)
    else if FindFirst(records, HasKey(IndexKey(data.dateString, data.htype, data.userId))).Some? then
      Err(DuplicateKey)
    else Ok(ToDocument(data, nextId))
  }

  /** A successful create stores exactly the trimmed document under the next
      id, keeps the collection well-formed, and fails only for the two reasons
      the schema and its index give. */
  lemma CreateKeepsWellFormed(records: seq<Holiday>, nextId: DocId, types: set<HolidayType>, data: HolidayData)
    requires WellFormed(records, nextId, types)
    ensures var r := CreateResult(records, nextId, types, data);
      (r == Err(ValidationError) <==> !Admits(data, types))
      && (r == Err(DuplicateKey) <==>
            (Admits(data, types) &&
             exists h :: h in records && KeyOf(h) == IndexKey(data.dateString, data.htype, data.userId)))
      && (r.Ok? ==> data.date.Some? && r.value == ToDocument(data, nextId)
                    && r.value.id == nextId && r.value.name == Trim(data.name)
                    && WellFormed(records + [r.value], nextId + 1, types))
  {
    var k := IndexKey(data.dateString, data.htype, data.userId);
    var f := FindFirst(records, HasKey(k));
    if f.Some? {
      assert records[f.value] in records && KeyOf(records[f.value]) == k;
    } else if Admits(data, types) {
      AppendFreshKeepsWellFormed(records, nextId, types, data);
    }
  }

  /** Appending an admitted document whose key is not stored yet keeps the
      collection well-formed. */
  lemma AppendFreshKeepsWellFormed(records: seq<Holiday>, nextId: DocId, types: set<HolidayType>, data: HolidayData)
    requires WellFormed(records, nextId, types) && Admits(data, types)
    requires FindFirst(records, HasKey(IndexKey(data.dateString, data.htype, data.userId))).None?
    ensures WellFormed(records + [ToDocument(data, nextId)], nextId + 1, types)
  {
    var doc := ToDocument(data, nextId);
    TrimIdempotent(data.name);
    FreshDocumentIsApart(records, doc);
    PairwiseSnoc(records, doc, ApartPair());
  }

  /** A document with an unused id and an unstored index key is apart from
      every stored document. */
  lemma FreshDocumentIsApart(records: seq<Holiday>, doc: Holiday)
    requires forall h :: h in records ==> h.id < doc.id
    requires FindFirst(records, HasKey(KeyOf(doc))).None?
    ensures forall h :: h in records ==> ApartPair()(h, doc)
  {
    forall h | h in records ensures ApartPair()(h, doc) {
      var i :| 0 <= i < |records| && records[i] == h;
      assert !HasKey(KeyOf(doc))(records[i]);
    }
  }

  class HolidayCollection {
    var records: seq<Holiday>
    var nextId: DocId
    const types: set<HolidayType>

    ghost predicate Valid()
      reads this
    {
      WellFormed(records, nextId, types)
    }

    /** An empty collection whose schema enum is `types`. */
    constructor (types: set<HolidayType>)
      ensures Valid() && records == [] && this.types == types
    {
      records := [];
      nextId := 0;
      this.types := types;
    }

    /** `find(filter)`: the matching documents in stored order. */
    method Find(p: Holiday -> bool) returns (r: seq<Holiday>)
      ensures r == Filter(records, p)
    {
      r := SelectAll(records, p);
    }

    /** `findOne(filter)`: the first matching document, if any. */
    method FindOne(p: Holiday -> bool) returns (r: Option<Holiday>)
      ensures r.None? <==> FindFirst(records, p).None?
      ensures r.Some? ==> r.value == records[FindFirst(records, p).value]
      ensures r.Some? ==> r.value in records && p(r.value)
    {
      var i := SelectFirst(records, p);
      r := if i.Some? then Some(records[i.value]) else None;
    }

    /** `create(data)`. */
    method Create(data: HolidayData) returns (r: Result<Holiday>)
      requires Valid()
      modifies this
      ensures Valid()
      ensures r == CreateResult(old(records), old(nextId), types, data)
      ensures records == (if r.Ok? then old(records) + [r.value] else old(records))
      ensures nextId == (if r.Ok? then old(nextId) + 1 else old(nextId))
    {
      CreateKeepsWellFormed(records, nextId, types, data);
      if !Admits(data, types) {
        return Err(ValidationError);
      }
      var clash := FindOne(HasKey(IndexKey(data.dateString, data.htype, data.userId)));
      if clash.Some? {
        return Err(DuplicateKey);
      }
      var doc := ToDocument(data, nextId);
      records := records + [doc];
      nextId := nextId + 1;
      r := Ok(doc);
    }

    /** `findByIdAndDelete(id)`: every document with that id goes, nothing else. */
    method FindByIdAndDelete(id: DocId)
      requires Valid()
      modifies this
      ensures Valid() && nextId == old(nextId)
      ensures records == Filter(old(records), OtherThan(id))
    {
      var kept := Find(OtherThan(id));
      FilterKeepsWellFormed(records, nextId, types, OtherThan(id));
      records := kept;
    }
  }

  /** Removing documents never breaks the collection's invariant. */
  lemma FilterKeepsWellFormed(records: seq<Holiday>, nextId: DocId, types: set<HolidayType>, p: Holiday -> bool)
    requires WellFormed(records, nextId, types)
    ensures WellFormed(Filter(records, p), nextId, types)
  {
    FilterKeepsPairwise(records, p, ApartPair());
  }
}
