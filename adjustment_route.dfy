/** The adjustments endpoint (app/api/adjustments/route.ts): the month query,
    the creation of a range that must not overlap any stored range, and
    deletion. As for holidays, each handler is a method on the collection
    object, proved equal to a function that states its outcome. */
module AdjustmentRoute {
  import opened Wrappers
  import opened EcmaTime
  import opened JsString
  import opened JsNumber
  import opened DateKeys
  import opened Seqs
  import opened AdjustmentModel

  // ---------------------------------------------------------------------------
  // Ranges of day keys
  // ---------------------------------------------------------------------------

  /** The query both handlers send: a stored range that starts no later than
      `hi` and ends no earlier than `lo`, compared as strings. */
  function Meets(lo: string, hi: string): Adjustment -> bool {
    (a: Adjustment) => LexLe(a.startDate, hi) && LexLe(lo, a.endDate)
  }

  /** Two closed ranges of keys overlap. */
  predicate RangesOverlap(s1: string, e1: string, s2: string, e2: string) {
    LexLe(s1, e2) && LexLe(s2, e1)
  }

  /** Key `k` lies in the closed range from `s` to `e`. */
  predicate InRange(k: string, s: string, e: string) {
    LexLe(s, k) && LexLe(k, e)
  }

  /** For ranges that are not empty, the store's overlap test holds exactly
      when some key lies in both ranges (the later of the two starts does). */
  lemma OverlapIsSharedKey(s1: string, e1: string, s2: string, e2: string)
    requires LexLe(s1, e1) && LexLe(s2, e2)
    ensures RangesOverlap(s1, e1, s2, e2) <==> exists k :: InRange(k, s1, e1) && InRange(k, s2, e2)
    ensures RangesOverlap(s1, e1, s2, e2) <==> RangesOverlap(s2, e2, s1, e1)
  {
    if RangesOverlap(s1, e1, s2, e2) {
      var k := LaterStart(s1, s2);
      assert InRange(k, s1, e1) && InRange(k, s2, e2);
    }
    if exists k :: InRange(k, s1, e1) && InRange(k, s2, e2) {
      var k :| InRange(k, s1, e1) && InRange(k, s2, e2);
      LexLeTransitive(s1, k, e2);
      LexLeTransitive(s2, k, e1);
    }
  }

  /** The later of two starts, which lies in both ranges when they overlap. */
  function LaterStart(s1: string, s2: string): (k: string)
    ensures LexLe(s1, k) && LexLe(s2, k)
    ensures k == s1 || k == s2
  {
    LexLeTotal(s1, s2);
    LexLeReflexive(s1);
    LexLeReflexive(s2);
    if LexLe(s1, s2) then s2 else s1
  }

  /** For keys of dates with four-digit years, ranges overlap as strings
      exactly when their days overlap on the calendar. */
  lemma KeyOverlapIsDayOverlap(s1: Civil, e1: Civil, s2: Civil, e2: Civil)
    requires ValidCivil(s1) && ValidCivil(e1) && ValidCivil(s2) && ValidCivil(e2)
    requires FourDigitYear(s1.year) && FourDigitYear(e1.year) && FourDigitYear(s2.year) && FourDigitYear(e2.year)
    ensures RangesOverlap(DateKey(s1), DateKey(e1), DateKey(s2), DateKey(e2)) <==>
      DaysFromCivil(s1) <= DaysFromCivil(e2) && DaysFromCivil(s2) <= DaysFromCivil(e1)
  {
    KeyOrderIsChronological(s1, e2);
    KeyOrderIsChronological(s2, e1);
  }

  /** No stored range ends before it starts, by the route's own check
      (JavaScript's `<`), and no two stored ranges overlap in the store's
      order. */
  predicate Scheduled(records: seq<Adjustment>) {
    (forall a :: a in records ==> !JsLessThan(a.endDate, a.startDate))
    && Pairwise(records, Separate())
  }

  function Separate(): (Adjustment, Adjustment) -> bool {
    (a: Adjustment, b: Adjustment) => !RangesOverlap(a.startDate, a.endDate, b.startDate, b.endDate)
  }

  // ---------------------------------------------------------------------------
  // GET
  // ---------------------------------------------------------------------------

  /** `String(new Date(year, month, 0).getDate())` padded to two digits, on a
      server whose zone is `serverOffset` minutes behind UTC. The local date
      built is day 0 of the month after `month` (zero-based), that is the last
      day of `month` (one-based); its calendar fields are read in the same zone,
      so the zone matters only where TimeClip makes the date invalid and the
      text is `NaN`. */
  function LastDayLabel(year: int, month: int, serverOffset: int): string {
    var day := MakeDay(MakeFullYear(year), month, 0);
    if IsTimeValue(MakeDate(day, 0) + serverOffset * 60000) then Pad2(CivilFromDays(day).day)
    else "NaN"
  }

  /** `${year}-${monthStr}-01`. */
  function MonthStart(year: int, month: int): string {
    MonthPrefix(year, month) + "01"
  }

  /** `${year}-${monthStr}-${lastDay}`. */
  function MonthEnd(year: int, month: int, serverOffset: int): string {
    MonthPrefix(year, month) + LastDayLabel(year, month, serverOffset)
  }

  /** For a four-digit year and a month from 1 to 12, the last-day label is
      the month's length. */
  lemma LastDayIsMonthLength(year: int, month: int, serverOffset: int)
    requires FourDigitYear(year) && 1 <= month <= 12 && -1440 <= serverOffset <= 1440
    ensures LastDayLabel(year, month, serverOffset) == Pad2(DaysInMonth(year, month))
  {
    var last := Civil(year, month, DaysInMonth(year, month));
    MakeDayDateZero(year, month);
    var day := MakeDay(year, month, 0);
    assert DaysFromCivil(last) == day;
    assert IsTimeValue(MakeDate(day, 0) + serverOffset * 60000) by {
      DayNumberBounds(last);
      DayFromYearBounds();
    }
  }

  /** The GET bounds are the keys of the first and the last day of the month. */
  lemma MonthBoundsAreKeys(year: int, month: int, serverOffset: int)
    requires FourDigitYear(year) && 1 <= month <= 12 && -1440 <= serverOffset <= 1440
    ensures MonthStart(year, month) == FormatKey(year, month, 1)
    ensures MonthEnd(year, month, serverOffset) == FormatKey(year, month, DaysInMonth(year, month))
  {
    TwoDigitNumeral(1, "01");
    MonthPrefixKey(year, month, 1);
    LastDayIsMonthLength(year, month, serverOffset);
    MonthPrefixKey(year, month, DaysInMonth(year, month));
  }

  function ByStartDate(): Adjustment -> string {
    (a: Adjustment) => a.startDate
  }

  /** The GET handler's answer: 401 without a requester, otherwise the ranges
      that meet the month, sorted by startDate. */
  function GetResponse(records: seq<Adjustment>, requester: Option<UserId>, year: int, month: int,
                       serverOffset: int): (r: Response<seq<Adjustment>>)
    ensures r.status == if requester.None? then 401 else 200
    ensures r.status == 200 ==> r.body.Some? && SortedBy(r.body.value, ByStartDate())
    ensures r.status == 200 ==>
      (multiset(r.body.value)
       == multiset(Filter(records, Meets(MonthStart(year, month), MonthEnd(year, month, serverOffset)))))
  {
    if requester.None? then Response(401, "Unauthorized", None)
    else
      var found := Filter(records, Meets(MonthStart(year, month), MonthEnd(year, month, serverOffset)));
      Response(200, "", Some(SortByKey(found, ByStartDate())))
  }

  /** GET lists exactly the stored ranges that meet the month bounds. */
  lemma GetListsRangesMeetingBounds(records: seq<Adjustment>, requester: UserId, year: int, month: int,
                                    serverOffset: int, a: Adjustment)
    ensures var r := GetResponse(records, Some(requester), year, month, serverOffset);
      r.status == 200 &&
      (a in r.body.value <==>
         a in records && RangesOverlap(a.startDate, a.endDate, MonthStart(year, month), MonthEnd(year, month, serverOffset)))
  {
    SortedSelectionMembers(records, Meets(MonthStart(year, month), MonthEnd(year, month, serverOffset)),
                           ByStartDate(), a);
  }

  /** For keys of four-digit-year dates, meeting the month bounds means sharing
      a day with the month. */
  lemma MeetingBoundsIsSharingADay(year: int, month: int, serverOffset: int, s: Civil, e: Civil)
    requires FourDigitYear(year) && 1 <= month <= 12 && -1440 <= serverOffset <= 1440
    requires ValidCivil(s) && ValidCivil(e) && FourDigitYear(s.year) && FourDigitYear(e.year)
    ensures var first, last := Civil(year, month, 1), Civil(year, month, DaysInMonth(year, month));
      RangesOverlap(DateKey(s), DateKey(e), MonthStart(year, month), MonthEnd(year, month, serverOffset)) <==>
        DaysFromCivil(s) <= DaysFromCivil(last) && DaysFromCivil(first) <= DaysFromCivil(e)
  {
    MonthBoundsAreKeys(year, month, serverOffset);
    var first, last := Civil(year, month, 1), Civil(year, month, DaysInMonth(year, month));
    assert MonthStart(year, month) == DateKey(first);
    assert MonthEnd(year, month, serverOffset) == DateKey(last);
    KeyOverlapIsDayOverlap(s, e, first, last);
  }

  /** A range of keys of dates with four-digit years is listed exactly when it
      is stored and shares at least one day with the requested month. */
  lemma GetListsRangesMeetingMonth(records: seq<Adjustment>, requester: UserId, year: int, month: int,
                                   serverOffset: int, a: Adjustment, s: Civil, e: Civil)
    requires FourDigitYear(year) && 1 <= month <= 12 && -1440 <= serverOffset <= 1440
    requires ValidCivil(s) && ValidCivil(e) && FourDigitYear(s.year) && FourDigitYear(e.year)
    requires a.startDate == DateKey(s) && a.endDate == DateKey(e)
    ensures var r := GetResponse(records, Some(requester), year, month, serverOffset);
      var first, last := Civil(year, month, 1), Civil(year, month, DaysInMonth(year, month));
      r.status == 200 &&
      (a in r.body.value <==>
         a in records && DaysFromCivil(s) <= DaysFromCivil(last) && DaysFromCivil(first) <= DaysFromCivil(e))
  {
    GetListsRangesMeetingBounds(records, requester, year, month, serverOffset, a);
    MeetingBoundsIsSharingADay(year, month, serverOffset, s, e);
  }

  method Get(store: AdjustmentCollection, requester: Option<UserId>, year: int, month: int, serverOffset: int)
    returns (resp: Response<seq<Adjustment>>)
    ensures resp == GetResponse(store.records, requester, year, month, serverOffset)
  {
    if requester.None? {
      return Response(401, "Unauthorized", None);
    }
    var found := store.Find(Meets(MonthStart(year, month), MonthEnd(year, month, serverOffset)));
    resp := Response(200, "", Some(SortByKey(found, ByStartDate())));
  }

  // ---------------------------------------------------------------------------
  // POST
  // ---------------------------------------------------------------------------

  /** The request body; None is an absent field. `reductionMinutes` is taken
      to be an integer. */
  datatype PostBody = PostBody(
    name: Option<string>,
    startDate: Option<string>,
    endDate: Option<string>,
    reductionMinutes: Option<int>)

  predicate HasRequiredFields(body: PostBody) {
    Present(body.name) && Present(body.startDate) && Present(body.endDate) && body.reductionMinutes.Some?
  }

  const MissingFieldsMessage: string := "Missing required fields: name, startDate, endDate, reductionMinutes"
  const OrderMessage: string := "startDate must be before or equal to endDate"
  const NegativeMessage: string := "reductionMinutes must be a positive number"
  const CreatedMessage: string := "Adjustment created successfully"

  function OverlapMessage(a: Adjustment): string {
    "Overlaps with existing adjustment \"" + a.name + "\" (" + a.startDate + " - " + a.endDate + ")"
  }

  /** What the route hands to `create`: the trimmed name, the dates as given
      and the minutes. */
  function RequestData(body: PostBody): AdjustmentData
    requires HasRequiredFields(body)
  {
    AdjustmentData(Trim(body.name.value), body.startDate.value, body.endDate.value, body.reductionMinutes.value)
  }

  datatype PostResult = PostResult(response: Response<Adjustment>, records: seq<Adjustment>, nextId: DocId)

  /** The POST handler's answer and the collection afterwards. */
  function PostResponse(records: seq<Adjustment>, nextId: DocId, requester: Option<UserId>, body: PostBody)
    : (r: PostResult)
    ensures r.response.status in {201, 400, 401, 409, 500}
    ensures r.response.status == 401 <==> requester.None?
    ensures r.response.status == 201 ==>
      (r.response.body.Some? && r.records == records + [r.response.body.value] && r.nextId == nextId + 1)
    ensures r.response.status == 201 ==>
      requester.Some? && HasRequiredFields(body) && CreateResult(nextId, RequestData(body)) == Ok(r.response.body.value)
    ensures r.response.status == 201 ==>
      var start, end := body.startDate.value, body.endDate.value;
      !JsLessThan(end, start)
      && forall a :: a in records ==> !RangesOverlap(a.startDate, a.endDate, start, end)
    ensures r.response.status != 201 ==> r.records == records && r.nextId == nextId
  {
    if requester.None? then PostResult(Response(401, "Unauthorized", None), records, nextId)
    else if !HasRequiredFields(body) then PostResult(Response(400, MissingFieldsMessage, None), records, nextId)
    else if JsLessThan(body.endDate.value, body.startDate.value) then
      PostResult(Response(400, OrderMessage, None), records, nextId)
    else if body.reductionMinutes.value < 0 then PostResult(Response(400, NegativeMessage, None), records, nextId)
    else StoreUnlessOverlapping(records, nextId, body)
  }

  /** The part of POST after the field checks: the overlap query, then the
      insert. */
  function StoreUnlessOverlapping(records: seq<Adjustment>, nextId: DocId, body: PostBody): (r: PostResult)
    requires HasRequiredFields(body)
    ensures r.response.status in {201, 409, 500}
    ensures r.response.status == 201 ==>
      r.response.body.Some? && r.records == records + [r.response.body.value] && r.nextId == nextId + 1
      && CreateResult(nextId, RequestData(body)) == Ok(r.response.body.value)
      && forall a :: a in records ==> !RangesOverlap(a.startDate, a.endDate, body.startDate.value, body.endDate.value)
    ensures r.response.status != 201 ==> r.records == records && r.nextId == nextId
  {
    match FindFirst(records, Meets(body.startDate.value, body.endDate.value))
    case Some(i) => PostResult(Response(409, OverlapMessage(records[i]), None), records, nextId)
    case None =>
      match CreateResult(nextId, RequestData(body))
      case Ok(a) => PostResult(Response(201, CreatedMessage, Some(a)), records + [a], nextId + 1)
      case Err(_) => PostResult(Response(500, InternalError, None), records, nextId)
  }

  /** The three 400 answers come exactly for a missing field, an end before
      the start (JavaScript's `startDate > endDate`, by code units), and a
      negative reduction, in that order; zero minutes is accepted. */
  lemma PostRejectsBadRequests(records: seq<Adjustment>, nextId: DocId, requester: UserId, body: PostBody)
    ensures var r := PostResponse(records, nextId, Some(requester), body);
      (r.response.status == 400 && r.response.message == MissingFieldsMessage <==> !HasRequiredFields(body))
      && (r.response.status == 400 && r.response.message == OrderMessage <==>
            HasRequiredFields(body) && JsLessThan(body.endDate.value, body.startDate.value))
      && (r.response.status == 400 && r.response.message == NegativeMessage <==>
            HasRequiredFields(body) && !JsLessThan(body.endDate.value, body.startDate.value)
            && body.reductionMinutes.value < 0)
  {
    BadRequestMessagesDiffer();
  }

  lemma BadRequestMessagesDiffer()
    ensures MissingFieldsMessage != OrderMessage && MissingFieldsMessage != NegativeMessage
    ensures OrderMessage != NegativeMessage
  {
    assert |MissingFieldsMessage| == 67 && |OrderMessage| == 44 && |NegativeMessage| == 42;
  }

  /** A request that passes the field checks conflicts (409) exactly when some
      stored range overlaps it, and the message names the first such range in
      insertion order (the store itself leaves open which match `findOne`
      returns). */
  lemma PostConflictsOnOverlap(records: seq<Adjustment>, nextId: DocId, requester: UserId, body: PostBody)
    requires HasRequiredFields(body) && !JsLessThan(body.endDate.value, body.startDate.value)
    requires body.reductionMinutes.value >= 0
    ensures var r := PostResponse(records, nextId, Some(requester), body);
      var start, end := body.startDate.value, body.endDate.value;
      (r.response.status == 409 <==>
         exists a :: a in records && RangesOverlap(a.startDate, a.endDate, start, end))
      && (r.response.status == 409 ==>
            exists i :: 0 <= i < |records| && r.response.message == OverlapMessage(records[i])
              && RangesOverlap(records[i].startDate, records[i].endDate, start, end)
              && forall j :: 0 <= j < i ==> !RangesOverlap(records[j].startDate, records[j].endDate, start, end))
  {
    var start, end := body.startDate.value, body.endDate.value;
    assert PostResponse(records, nextId, Some(requester), body) == StoreUnlessOverlapping(records, nextId, body);
    var f := FindFirst(records, Meets(start, end));
    if f.Some? {
      assert records[f.value] in records;
    } else {
      forall a | a in records ensures !RangesOverlap(a.startDate, a.endDate, start, end) {
        var i :| 0 <= i < |records| && records[i] == a;
        assert !Meets(start, end)(records[i]);
      }
    }
  }

  /** A request that passes the route's checks and overlaps nothing is
      stored as asked: the next id, the trimmed name, the dates as given and
      the minutes, appended at the end. The store refuses it (500) only when
      the name is blank, which the route's own check lets through. */
  lemma PostCreatesRequestedRange(records: seq<Adjustment>, nextId: DocId, requester: UserId, body: PostBody)
    requires HasRequiredFields(body)
    requires !JsLessThan(body.endDate.value, body.startDate.value) && body.reductionMinutes.value >= 0
    requires forall a :: a in records ==> !RangesOverlap(a.startDate, a.endDate, body.startDate.value, body.endDate.value)
    ensures var r := PostResponse(records, nextId, Some(requester), body);
      var stored := Adjustment(nextId, Trim(body.name.value), body.startDate.value, body.endDate.value,
                               body.reductionMinutes.value);
      r.response.status == (if Trim(body.name.value) != "" then 201 else 500)
      && (r.response.status == 201 ==>
            r.response.body == Some(stored) && r.records == records + [stored] && r.nextId == nextId + 1)
  {
    var start, end := body.startDate.value, body.endDate.value;
    assert PostResponse(records, nextId, Some(requester), body) == StoreUnlessOverlapping(records, nextId, body);
    forall j | 0 <= j < |records| ensures !Meets(start, end)(records[j]) {
      assert records[j] in records;
    }
    TrimIdempotent(body.name.value);
  }

  /** POST keeps the schedule sound: if the stored ranges are ordered and
      pairwise disjoint, they still are afterwards, whatever the request. */
  lemma PostKeepsScheduled(records: seq<Adjustment>, nextId: DocId, requester: Option<UserId>, body: PostBody)
    requires Scheduled(records)
    ensures Scheduled(PostResponse(records, nextId, requester, body).records)
  {
    var r := PostResponse(records, nextId, requester, body);
    if r.response.status == 201 {
      var a := r.response.body.value;
      assert a == ToDocument(RequestData(body), nextId);
      forall x | x in records + [a] ensures !JsLessThan(x.endDate, x.startDate) {
        if x != a {
          assert x in records;
        }
      }
      PairwiseSnoc(records, a, Separate());
    }
  }

  /** Where the dates hold no character above U+FFFF (date keys among them),
      every range of a sound schedule is also ordered in the store's order. */
  lemma ScheduledRangesAreOrdered(records: seq<Adjustment>)
    requires Scheduled(records)
    requires forall a :: a in records ==> InBmp(a.startDate) && InBmp(a.endDate)
    ensures forall a :: a in records ==> LexLe(a.startDate, a.endDate)
  {
    forall a | a in records ensures LexLe(a.startDate, a.endDate) {
      JsLessThanInBmp(a.endDate, a.startDate);
      LexLtIsNotGe(a.endDate, a.startDate);
    }
  }

  /** Beyond U+FFFF the route's check and the store's order part: a range
      that starts at U+1F600 and ends at U+FF21 passes the check and is
      stored, though by code point it ends before it starts, so no key lies
      in it and the store's overlap test no longer means a shared day. */
  lemma PostStoresRangeInvertedForStore(requester: UserId)
    ensures var body := PostBody(Some("n"), Some("\U{1F600}"), Some("\U{FF21}"), Some(0));
      var r := PostResponse([], 1, Some(requester), body);
      r.response.status == 201 && r.records[0].startDate == "\U{1F600}" && r.records[0].endDate == "\U{FF21}"
      && !LexLe(r.records[0].startDate, r.records[0].endDate)
  {
    JsLessThanAboveBmp();
    LexLtIsNotGe("\U{FF21}", "\U{1F600}");
    assert Trim("n") == "n";
  }

  /** The collection invariant is kept too. */
  lemma PostKeepsWellFormed(records: seq<Adjustment>, nextId: DocId, requester: Option<UserId>, body: PostBody)
    requires WellFormed(records, nextId)
    ensures var r := PostResponse(records, nextId, requester, body);
      WellFormed(r.records, r.nextId)
  {
    var r := PostResponse(records, nextId, requester, body);
    if r.response.status == 201 {
      CreateKeepsWellFormed(records, nextId, RequestData(body));
    }
  }

  method Post(store: AdjustmentCollection, requester: Option<UserId>, body: PostBody)
    returns (resp: Response<Adjustment>)
    requires store.Valid()
    modifies store
    ensures store.Valid()
    ensures var e := PostResponse(old(store.records), old(store.nextId), requester, body);
      resp == e.response && store.records == e.records && store.nextId == e.nextId
  {
    if requester.None? {
      return Response(401, "Unauthorized", None);
    }
    if !HasRequiredFields(body) {
      return Response(400, MissingFieldsMessage, None);
    }
    var start, end := body.startDate.value, body.endDate.value;
    if JsLessThan(end, start) {
      return Response(400, OrderMessage, None);
    }
    if body.reductionMinutes.value < 0 {
      return Response(400, NegativeMessage, None);
    }
    var i := SelectFirst(store.records, Meets(start, end));
    if i.Some? {
      return Response(409, OverlapMessage(store.records[i.value]), None);
    }
    var created := store.Create(RequestData(body));
    match created {
      case Ok(a) =>
        resp := Response(201, CreatedMessage, Some(a));
      case Err(_) =>
        resp := Response(500, InternalError, None);
    }
  }

  // ---------------------------------------------------------------------------
  // DELETE
  // ---------------------------------------------------------------------------

  datatype DeleteResult = DeleteResult(response: Response<()>, records: seq<Adjustment>)

  const MissingIdMessage: string := "Missing adjustment id"
  const NotFoundMessage: string := "Adjustment not found"
  const DeletedMessage: string := "Adjustment deleted successfully"

  /** The DELETE handler's answer and the collection afterwards: any
      authenticated user may remove any adjustment. */
  function DeleteResponse(records: seq<Adjustment>, requester: Option<UserId>, id: Option<DocId>)
    : (r: DeleteResult)
    ensures r.response.status in {200, 400, 401, 404}
    ensures r.response.status == 401 <==> requester.None?
    ensures r.response.status != 200 ==> r.records == records
  {
    if requester.None? then DeleteResult(Response(401, "Unauthorized", None), records)
    else if id.None? then DeleteResult(Response(400, MissingIdMessage, None), records)
    else if FindFirst(records, HasId(id.value)).None? then DeleteResult(Response(404, NotFoundMessage, None), records)
    else DeleteResult(Response(200, DeletedMessage, Some(())), Filter(records, OtherThan(id.value)))
  }

  /** DELETE of a stored adjustment's id succeeds and removes exactly that
      adjustment; an unknown id is 404 and a missing one 400. */
  lemma DeleteRemovesExactlyOne(records: seq<Adjustment>, nextId: DocId, requester: UserId, id: Option<DocId>)
    requires WellFormed(records, nextId)
    ensures var r := DeleteResponse(records, Some(requester), id);
      (r.response.status == 400 <==> id.None?)
      && (r.response.status == 404 <==> id.Some? && forall a :: a in records ==> a.id != id.value)
      && (r.response.status == 200 ==>
            exists i :: 0 <= i < |records| && records[i].id == id.value
              && r.records == records[..i] + records[i + 1..])
  {
    var r := DeleteResponse(records, Some(requester), id);
    if id.Some? {
      var f := FindFirst(records, HasId(id.value));
      if f.Some? {
        var i := f.value;
        assert records[i] in records;
        forall j | 0 <= j < |records| && j != i ensures OtherThan(id.value)(records[j]) {
          if j < i {
            assert IdsDiffer()(records[j], records[i]);
          } else {
            assert IdsDiffer()(records[i], records[j]);
          }
        }
        FilterDropsOne(records, i, OtherThan(id.value));
      }
    }
  }

  /** Deleting keeps the schedule sound. */
  lemma DeleteKeepsScheduled(records: seq<Adjustment>, requester: Option<UserId>, id: Option<DocId>)
    requires Scheduled(records)
    ensures Scheduled(DeleteResponse(records, requester, id).records)
  {
    if requester.Some? && id.Some? {
      FilterKeepsPairwise(records, OtherThan(id.value), Separate());
    }
  }

  method Delete(store: AdjustmentCollection, requester: Option<UserId>, id: Option<DocId>)
    returns (resp: Response<()>)
    requires store.Valid()
    modifies store
    ensures store.Valid() && store.nextId == old(store.nextId)
    ensures var e := DeleteResponse(old(store.records), requester, id);
      resp == e.response && store.records == e.records
  {
    if requester.None? {
      return Response(401, "Unauthorized", None);
    }
    if id.None? {
      return Response(400, MissingIdMessage, None);
    }
    var adjustment := store.FindOne(HasId(id.value));
    if adjustment.None? {
      return Response(404, NotFoundMessage, None);
    }
    store.FindByIdAndDelete(id.value);
    resp := Response(200, DeletedMessage, Some(()));
  }
}
