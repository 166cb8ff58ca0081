/** The holidays endpoint (app/api/holidays/route.ts): day-key
    canonicalisation in the fixed UTC+7 (WIB) zone, the noon anchor, the
    per-type policy, and the GET, POST and DELETE handlers over a
    HolidayCollection. Each handler is a method on the collection object,
    proved equal to a function that states its outcome; the lemmas below are
    about those functions. */
module HolidayRoute {
  import opened Wrappers
  import opened EcmaTime
  import opened JsString
  import opened JsNumber
  import opened DateKeys
  import opened Seqs
  import opened HolidayModel

  /** WIB is seven hours ahead of UTC. */
  const WibOffsetMs: int := 7 * MsPerHour

  /** A JavaScript `Date`: an invalid date or a time value. */
  datatype DateValue = InvalidDate | TimeValue(t: int)

  // ---------------------------------------------------------------------------
  // toDateString and the noon anchor
  // ---------------------------------------------------------------------------

  /** The instant `t` moved to UTC by the server's offset (`serverOffset`
      minutes behind UTC, what `getTimezoneOffset` returns) and then seven
      hours ahead. */
  function ShiftedToWib(t: int, serverOffset: int): int {
    t + serverOffset * 60000 + WibOffsetMs
  }

  /** The server's local calendar date of `t`, as a key. */
  function LocalDateKey(t: int, serverOffset: int): string {
    DateKey(CivilOfTime(t - serverOffset * 60000))
  }

  /** `toDateString(d)` on a server whose zone has the fixed offset
      `serverOffset` (no daylight-saving changes): the shifted instant is
      turned back into a `Date`, which TimeClip may make invalid, and its local
      calendar fields are formatted, which takes the server's offset off
      again. An invalid date prints as `NaN-NaN-NaN`. */
  function ToDateString(d: DateValue, serverOffset: int): string {
    match d
    case InvalidDate => "NaN-NaN-NaN"
    case TimeValue(t) =>
      if IsTimeValue(ShiftedToWib(t, serverOffset)) then LocalDateKey(ShiftedToWib(t, serverOffset), serverOffset)
      else "NaN-NaN-NaN"
  }

  lemma ToDateStringOfTimeValue(t: int, serverOffset: int)
    ensures ToDateString(TimeValue(t), serverOffset) ==
      if IsTimeValue(ShiftedToWib(t, serverOffset)) then LocalDateKey(ShiftedToWib(t, serverOffset), serverOffset)
      else "NaN-NaN-NaN"
  {}

  lemma LocalDateOfShifted(t: int, serverOffset: int)
    ensures LocalDateKey(ShiftedToWib(t, serverOffset), serverOffset)
      == DateKey(CivilOfTime(t + WibOffsetMs))
  {
    assert ShiftedToWib(t, serverOffset) - serverOffset * 60000 == t + WibOffsetMs;
  }

  /** `toDateString` yields the key of the UTC+7 calendar date of the instant. */
  lemma ToDateStringIsWibDate(t: int, serverOffset: int)
    requires IsTimeValue(ShiftedToWib(t, serverOffset))
    ensures ToDateString(TimeValue(t), serverOffset) == DateKey(CivilOfTime(t + WibOffsetMs))
  {
    ToDateStringOfTimeValue(t, serverOffset);
    LocalDateOfShifted(t, serverOffset);
  }

  /** ... so the server's own zone cancels out. */
  lemma ToDateStringIgnoresServerZone(t: int, offset1: int, offset2: int)
    requires IsTimeValue(t)
    requires IsTimeValue(ShiftedToWib(t, offset1))
    requires IsTimeValue(ShiftedToWib(t, offset2))
    ensures ToDateString(TimeValue(t), offset1) == ToDateString(TimeValue(t), offset2)
  {
    ToDateStringIsWibDate(t, offset1);
    ToDateStringIsWibDate(t, offset2);
  }

  /** `new Date(Date.UTC(y, m - 1, d, 12, 0, 0))` where
      `[y, m, d] = dateString.split('-').map(Number)`: 12:00 UTC of the day the
      key names. A missing piece or a piece that is not a number makes the date
      invalid (None), and so does a result outside TimeClip's range. */
  function NoonAnchor(dateString: string): (r: Option<int>)
    ensures r.Some? ==> IsTimeValue(r.value)
  {
    var parts := Split(dateString, '-');
    if |parts| < 3 then None
    else match (ToNumber(parts[0]), ToNumber(parts[1]), ToNumber(parts[2]))
      case (Some(y), Some(m), Some(d)) =>
        var t := MakeDate(MakeDay(MakeFullYear(y), m - 1, d), 12 * MsPerHour);
        if IsTimeValue(t) then Some(t) else None
      case _ => None
  }

  lemma DigitsHaveNoDash(s: string)
    requires AllDigits(s)
    ensures '-' !in s
  {
    forall i | 0 <= i < |s| ensures s[i] != '-' {
      assert IsDigit(s[i]);
    }
  }

  /** Splitting `y-m-d` on '-' gives the three numerals back. */
  lemma SplitNumerals(y: string, m: string, d: string)
    requires AllDigits(y) && AllDigits(m) && AllDigits(d)
    ensures Split(y + "-" + m + "-" + d, '-') == [y, m, d]
  {
    DigitsHaveNoDash(y);
    DigitsHaveNoDash(m);
    DigitsHaveNoDash(d);
    assert Join([y, m, d], '-') == y + "-" + m + "-" + d by {
      assert Join([m, d], '-') == m + "-" + d;
    }
    SplitJoin([y, m, d], '-');
  }

  /** Splitting a key on '-' gives its three numerals back, and `Number` reads
      them as the year, the month and the day. */
  lemma KeyPieces(c: Civil)
    requires ValidCivil(c) && 0 <= c.year
    ensures var parts := Split(DateKey(c), '-');
      |parts| == 3 && ToNumber(parts[0]) == Some(c.year)
      && ToNumber(parts[1]) == Some(c.month) && ToNumber(parts[2]) == Some(c.day)
  {
    Pad2Numeral(c.month);
    Pad2Numeral(c.day);
    SplitNumerals(IntToString(c.year), Pad2(c.month), Pad2(c.day));
  }

  /** The noon anchor of a key is 12:00 UTC of the key's date. */
  lemma NoonAnchorOfKey(c: Civil)
    requires ValidCivil(c) && 100 <= c.year <= 9999
    ensures NoonAnchor(DateKey(c)) == Some(MakeDate(DaysFromCivil(c), 12 * MsPerHour))
  {
    KeyPieces(c);
    NoonIsTimeValue(c);
    NoonAnchorOfPieces(DateKey(c), c);
  }

  /** Noon of a day of the years 100 to 9999 is within TimeClip's range. */
  lemma NoonIsTimeValue(c: Civil)
    requires ValidCivil(c) && 100 <= c.year <= 9999
    ensures IsTimeValue(MakeDate(DaysFromCivil(c), 12 * MsPerHour))
  {
    DayNumberBounds(c);
    DayFromYearBounds();
  }

  /** A string whose three pieces read as the fields of `c` anchors at noon of `c`. */
  lemma NoonAnchorOfPieces(dateString: string, c: Civil)
    requires ValidCivil(c) && 100 <= c.year
    requires var parts := Split(dateString, '-');
      |parts| == 3 && ToNumber(parts[0]) == Some(c.year)
      && ToNumber(parts[1]) == Some(c.month) && ToNumber(parts[2]) == Some(c.day)
    requires IsTimeValue(MakeDate(DaysFromCivil(c), 12 * MsPerHour))
    ensures NoonAnchor(dateString) == Some(MakeDate(DaysFromCivil(c), 12 * MsPerHour))
  {
    MakeDayOfCivil(c);
  }

  /** Key to noon anchor and back: the anchor of a key is 12:00 UTC of its
      date, and `toDateString` of the anchor gives the same key back, whatever
      the server's zone (any real zone is within a day of UTC). */
  lemma NoonAnchorRoundTrip(c: Civil, serverOffset: int)
    requires ValidCivil(c) && 100 <= c.year <= 9999
    requires -1440 <= serverOffset <= 1440
    ensures NoonAnchor(DateKey(c)) == Some(MakeDate(DaysFromCivil(c), 12 * MsPerHour))
    ensures ToDateString(TimeValue(MakeDate(DaysFromCivil(c), 12 * MsPerHour)), serverOffset) == DateKey(c)
  {
    NoonAnchorOfKey(c);
    DayNumberBounds(c);
    NoonOfDayPrintsDay(DaysFromCivil(c), serverOffset);
    CivilRoundTrip(c);
  }

  /** 12:00 UTC of a day is 19:00 in WIB, on the same calendar day. */
  lemma NoonOfDayPrintsDay(n: int, serverOffset: int)
    requires DayFromYear(100) <= n < DayFromYear(10000)
    requires -1440 <= serverOffset <= 1440
    ensures ToDateString(TimeValue(MakeDate(n, 12 * MsPerHour)), serverOffset) == DateKey(CivilFromDays(n))
  {
    var noon := MakeDate(n, 12 * MsPerHour);
    assert IsTimeValue(noon) && IsTimeValue(ShiftedToWib(noon, serverOffset)) by {
      DayFromYearBounds();
    }
    assert CivilOfTime(noon + WibOffsetMs) == CivilFromDays(n) by {
      assert noon + WibOffsetMs == MakeDate(n, 19 * MsPerHour);
      DayOfMakeDate(n, 19 * MsPerHour);
    }
    ToDateStringIsWibDate(noon, serverOffset);
  }

  /** Instants whose WIB date has a year from 100 to 9999 get a key whose
      noon anchor lies on that same WIB date. */
  lemma ToDateStringThenAnchor(t: int, serverOffset: int)
    requires IsTimeValue(t) && -1440 <= serverOffset <= 1440
    requires IsTimeValue(ShiftedToWib(t, serverOffset))
    requires 100 <= CivilOfTime(t + WibOffsetMs).year <= 9999
    ensures var ds := ToDateString(TimeValue(t), serverOffset);
      NoonAnchor(ds).Some? && ToDateString(TimeValue(NoonAnchor(ds).value), serverOffset) == ds
    ensures NoonAnchor(ToDateString(TimeValue(t), serverOffset))
            == Some(MakeDate(DaysFromCivil(CivilOfTime(t + WibOffsetMs)), 12 * MsPerHour))
  {
    ToDateStringIsWibDate(t, serverOffset);
    NoonAnchorRoundTrip(CivilOfTime(t + WibOffsetMs), serverOffset);
  }

  // ---------------------------------------------------------------------------
  // The per-type policy
  // ---------------------------------------------------------------------------

  /** PERSONAL and PIKET entries belong to one user. */
  predicate OwnerScoped(t: HolidayType) {
    t == Personal || t == Piket
  }

  /** GLOBAL and CUTI_BERSAMA always deduct and PIKET never does; PERSONAL
      takes the caller's flag and deducts when none is given. */
  function EffectiveIsDeductible(t: HolidayType, supplied: Option<bool>): bool {
    if t == Global || t == CutiBersama then true
    else if t == Piket then false
    else match supplied
      case Some(b) => b
      case None => true
  }

  /** The owner recorded for a new entry: the requester for an owner-scoped
      type, null otherwise. */
  function EffectiveOwner(t: HolidayType, requester: UserId): (owner: Option<UserId>)
    ensures owner.Some? <==> OwnerScoped(t)
    ensures owner.Some? ==> owner.value == requester
  {
    if OwnerScoped(t) then Some(requester) else None
  }

  function TypeLabel(t: HolidayType): string {
    match t
    case Global => "Global Holiday"
    case CutiBersama => "Cuti Bersama"
    case Personal => "Personal Leave"
    case Piket => "Piket"
  }

  /** The check that `type` is one of the four names. */
  function ParseType(s: string): (r: Option<HolidayType>)
    ensures r.Some? ==> TypeName(r.value) == s
    ensures r.None? ==> forall t :: TypeName(t) != s
  {
    if s == "GLOBAL" then Some(Global)
    else if s == "CUTI_BERSAMA" then Some(CutiBersama)
    else if s == "PERSONAL" then Some(Personal)
    else if s == "PIKET" then Some(Piket)
    else None
  }

  /** Each of the four names is read as its type. */
  lemma ParseTypeName(t: HolidayType)
    ensures ParseType(TypeName(t)) == Some(t)
  {
    match t
    case Global =>
    case CutiBersama =>
      assert TypeName(t) != "GLOBAL" by { assert TypeName(t)[0] == 'C'; }
    case Personal =>
      assert TypeName(t) != "GLOBAL" && TypeName(t) != "CUTI_BERSAMA" by { assert TypeName(t)[0] == 'P'; }
    case Piket =>
      assert TypeName(t) != "GLOBAL" && TypeName(t) != "CUTI_BERSAMA" by { assert TypeName(t)[0] == 'P'; }
      assert TypeName(t) != "PERSONAL" by { assert |TypeName(t)| == 5; }
  }

  /** What the policy says of a stored entry: it has an owner exactly when
      its type is owner-scoped, and the forced deduction flags hold. */
  predicate FollowsPolicy(h: Holiday) {
    (h.userId.Some? <==> OwnerScoped(h.htype))
    && ((h.htype == Global || h.htype == CutiBersama) ==> h.isDeductible)
    && (h.htype == Piket ==> !h.isDeductible)
  }

  // ---------------------------------------------------------------------------
  // GET
  // ---------------------------------------------------------------------------

  /** `${year}-${monthStr}-01`. */
  function MonthStart(year: int, month: int): string {
    MonthPrefix(year, month) + "01"
  }

  /** `${year}-${monthStr}-31`: the same upper bound for every month. */
  function MonthEnd(year: int, month: int): string {
    MonthPrefix(year, month) + "31"
  }

  /** Read visibility: shared entries for everyone, owner-scoped entries for
      their owner only. */
  predicate VisibleTo(h: Holiday, requester: UserId) {
    h.htype == Global || h.htype == CutiBersama || (OwnerScoped(h.htype) && h.userId == Some(requester))
  }

  /** The GET query: a key between the bounds and visible to the requester. */
  function Selector(lo: string, hi: string, requester: UserId): Holiday -> bool {
    (h: Holiday) => LexLe(lo, h.dateString) && LexLe(h.dateString, hi) && VisibleTo(h, requester)
  }

  function ByDateString(): Holiday -> string {
    (h: Holiday) => h.dateString
  }

  /** The GET handler's answer: 401 without a requester, otherwise the
      selected entries sorted by dateString. */
  function GetResponse(records: seq<Holiday>, requester: Option<UserId>, year: int, month: int)
    : (r: Response<seq<Holiday>>)
    ensures r.status == if requester.None? then 401 else 200
    ensures r.status == 200 ==> r.body.Some? && SortedBy(r.body.value, ByDateString())
    ensures r.status == 200 ==>
      (multiset(r.body.value)
       == multiset(Filter(records, Selector(MonthStart(year, month), MonthEnd(year, month), requester.value))))
  {
    if requester.None? then Response(401, "Unauthorized", None)
    else
      var found := Filter(records, Selector(MonthStart(year, month), MonthEnd(year, month), requester.value));
      Response(200, "", Some(SortByKey(found, ByDateString())))
  }

  /** The fixed `-31` bounds are the bounds of the requested month. */
  lemma MonthBoundsAreKeys(year: int, month: int)
    requires 1 <= month <= 12
    ensures MonthStart(year, month) == FormatKey(year, month, 1)
    ensures MonthEnd(year, month) == FormatKey(year, month, 31)
  {
    TwoDigitNumeral(1, "01");
    TwoDigitNumeral(31, "31");
    MonthPrefixKey(year, month, 1);
    MonthPrefixKey(year, month, 31);
  }

  /** For keys with four-digit years, `"{y}-{mm}-01" <= k <= "{y}-{mm}-31"`
      holds exactly when `k` is a day of month `mm` of year `y`, although the
      upper bound names a day that short months do not have. */
  lemma MonthBoundsSelectMonth(c: Civil, year: int, month: int)
    requires ValidCivil(c) && FourDigitYear(c.year)
    requires FourDigitYear(year) && 1 <= month <= 12
    ensures LexLe(MonthStart(year, month), DateKey(c)) && LexLe(DateKey(c), MonthEnd(year, month))
      <==> c.year == year && c.month == month
  {
    MonthBoundsAreKeys(year, month);
    MonthRangeExact(c, year, month, 31);
  }

  /** An entry keyed by a date with a four-digit year is listed exactly when
      it is stored, lies in the requested month and is visible to the
      requester: another user's PERSONAL or PIKET entry never shows. */
  lemma GetListsVisibleEntriesOfMonth(records: seq<Holiday>, requester: UserId, year: int, month: int,
                                      h: Holiday, c: Civil)
    requires FourDigitYear(year) && 1 <= month <= 12
    requires ValidCivil(c) && FourDigitYear(c.year) && h.dateString == DateKey(c)
    ensures var r := GetResponse(records, Some(requester), year, month);
      r.status == 200 &&
      (h in r.body.value <==> h in records && c.year == year && c.month == month && VisibleTo(h, requester))
  {
    SortedSelectionMembers(records, Selector(MonthStart(year, month), MonthEnd(year, month), requester),
                           ByDateString(), h);
    MonthBoundsSelectMonth(c, year, month);
  }

  method Get(store: HolidayCollection, requester: Option<UserId>, year: int, month: int)
    returns (resp: Response<seq<Holiday>>)
    ensures resp == GetResponse(store.records, requester, year, month)
  {
    if requester.None? {
      return Response(401, "Unauthorized", None);
    }
    var found := store.Find(Selector(MonthStart(year, month), MonthEnd(year, month), requester.value));
    resp := Response(200, "", Some(SortByKey(found, ByDateString())));
  }

  // ---------------------------------------------------------------------------
  // POST
  // ---------------------------------------------------------------------------

  /** The request body. A field is None when it is absent. `date` is None
      for any falsy value (absent, `null`, `""`, `0`, `false`), which the
      route's `!date` refuses; for any other value it holds what `new Date`
      made of it. */
  datatype PostBody = PostBody(
    date: Option<DateValue>,
    name: Option<string>,
    htype: Option<string>,
    isDeductible: Option<bool>)

  predicate HasRequiredFields(body: PostBody) {
    body.date.Some? && Present(body.name) && Present(body.htype)
  }

  const MissingFieldsMessage: string := "Missing required fields: date, name, type"
  const InvalidTypeMessage: string := "Invalid type. Must be GLOBAL, CUTI_BERSAMA, PERSONAL, or PIKET."
  const CreatedMessage: string := "Holiday created successfully"
  const StoreDuplicateMessage: string := "A holiday already exists for this date and type."

  function DuplicateMessage(t: HolidayType, dateString: string): string {
    "A " + TypeLabel(t) + " already exists on " + dateString + "."
  }

  /** The document the route asks the store to create. */
  function HolidayDataFor(t: HolidayType, requester: UserId, body: PostBody, serverOffset: int): HolidayData
    requires body.date.Some? && body.name.Some?
  {
    var ds := ToDateString(body.date.value, serverOffset);
    HolidayData(NoonAnchor(ds), ds, Trim(body.name.value), t,
                EffectiveIsDeductible(t, body.isDeductible), EffectiveOwner(t, requester))
  }

  datatype PostResult = PostResult(response: Response<Holiday>, records: seq<Holiday>, nextId: DocId)

  /** The handler's steps once the body has passed its checks: the lookup of
      an entry with the same index key, then the store's create. The store
      changes only on 201, by one appended document. */
  function CreateResponse(records: seq<Holiday>, nextId: DocId, types: set<HolidayType>, data: HolidayData)
    : (r: PostResult)
    ensures r.response.status in {201, 409, 500}
    ensures r.response.status == 201 ==>
      (r.response.body.Some? && r.records == records + [r.response.body.value] && r.nextId == nextId + 1)
    ensures r.response.status == 201 ==> CreateResult(records, nextId, types, data) == Ok(r.response.body.value)
    ensures r.response.status != 201 ==> r.records == records && r.nextId == nextId
  {
    if FindFirst(records, HasKey(IndexKey(data.dateString, data.htype, data.userId))).Some? then
      PostResult(Response(409, DuplicateMessage(data.htype, data.dateString), None), records, nextId)
    else match CreateResult(records, nextId, types, data)
      case Ok(h) => PostResult(Response(201, CreatedMessage, Some(h)), records + [h], nextId + 1)
      case Err(DuplicateKey) => PostResult(Response(409, StoreDuplicateMessage, None), records, nextId)
      case Err(ValidationError) => PostResult(Response(500, InternalError, None), records, nextId)
  }

  /** The POST handler's answer and the collection afterwards. */
  function PostResponse(records: seq<Holiday>, nextId: DocId, types: set<HolidayType>,
                        requester: Option<UserId>, body: PostBody, serverOffset: int): (r: PostResult)
    ensures r.response.status in {201, 400, 401, 409, 500}
    ensures r.response.status == 201 ==>
      (r.response.body.Some? && r.records == records + [r.response.body.value] && r.nextId == nextId + 1)
    ensures r.response.status == 201 ==>
      requester.Some? && HasRequiredFields(body) && ParseType(body.htype.value).Some?
      && CreateResult(records, nextId, types,
                      HolidayDataFor(ParseType(body.htype.value).value, requester.value, body, serverOffset))
         == Ok(r.response.body.value)
    ensures r.response.status != 201 ==> r.records == records && r.nextId == nextId
  {
    if requester.None? then PostResult(Response(401, "Unauthorized", None), records, nextId)
    else if !HasRequiredFields(body) then PostResult(Response(400, MissingFieldsMessage, None), records, nextId)
    else match ParseType(body.htype.value)
      case None => PostResult(Response(400, InvalidTypeMessage, None), records, nextId)
      case Some(t) => CreateResponse(records, nextId, types, HolidayDataFor(t, requester.value, body, serverOffset))
  }

  /** 401 without a requester; 400 when a field is missing or the type is not
      one of the four, with no write in either case. */
  lemma PostRejectsBadRequests(records: seq<Holiday>, nextId: DocId, types: set<HolidayType>,
                               requester: Option<UserId>, body: PostBody, serverOffset: int)
    ensures var r := PostResponse(records, nextId, types, requester, body, serverOffset);
      (r.response.status == 401 <==> requester.None?)
      && (r.response.status == 400 && r.response.message == MissingFieldsMessage <==>
            requester.Some? && !HasRequiredFields(body))
      && (r.response.status == 400 && r.response.message == InvalidTypeMessage <==>
            requester.Some? && HasRequiredFields(body) && ParseType(body.htype.value).None?)
  {
    BadRequestMessagesDiffer();
  }

  lemma BadRequestMessagesDiffer()
    ensures MissingFieldsMessage != InvalidTypeMessage
  {
    assert |MissingFieldsMessage| < 50 < |InvalidTypeMessage|;
  }

  /** A created entry is keyed by `toDateString` of the request's date,
      anchored at noon of that key, carries the trimmed name, and follows the
      type policy: the deduction flag and the owner are derived from the type. */
  lemma PostAppliesTypePolicy(records: seq<Holiday>, nextId: DocId, types: set<HolidayType>,
                              requester: Option<UserId>, body: PostBody, serverOffset: int)
    requires WellFormed(records, nextId, types)
    ensures var r := PostResponse(records, nextId, types, requester, body, serverOffset);
      r.response.status == 201 ==>
        var h := r.response.body.value;
        var t := ParseType(body.htype.value).value;
        h.id == nextId && h.htype == t
        && h.dateString == ToDateString(body.date.value, serverOffset)
        && Some(h.date) == NoonAnchor(h.dateString)
        && h.name == Trim(body.name.value)
        && h.isDeductible == EffectiveIsDeductible(t, body.isDeductible)
        && h.userId == EffectiveOwner(t, requester.value)
        && FollowsPolicy(h)
  {
    var r := PostResponse(records, nextId, types, requester, body, serverOffset);
    if r.response.status == 201 {
      var t := ParseType(body.htype.value).value;
      var data := HolidayDataFor(t, requester.value, body, serverOffset);
      CreateKeepsWellFormed(records, nextId, types, data);
    }
  }

  /** 409 comes exactly when an entry with the same date key, type and
      effective owner is already stored; the store's own duplicate-key answer
      is never reached by requests taken one at a time. */
  lemma PostConflictsOnDuplicates(records: seq<Holiday>, nextId: DocId, types: set<HolidayType>,
                                  requester: UserId, body: PostBody, serverOffset: int)
    requires WellFormed(records, nextId, types)
    requires HasRequiredFields(body) && ParseType(body.htype.value).Some?
    ensures var r := PostResponse(records, nextId, types, Some(requester), body, serverOffset);
      var t := ParseType(body.htype.value).value;
      var ds := ToDateString(body.date.value, serverOffset);
      (r.response.status == 409 <==>
         exists h :: h in records && KeyOf(h) == IndexKey(ds, t, EffectiveOwner(t, requester)))
      && (r.response.status == 409 ==> r.response.message == DuplicateMessage(t, ds))
  {
    var t := ParseType(body.htype.value).value;
    var data := HolidayDataFor(t, requester, body, serverOffset);
    var f := FindFirst(records, HasKey(IndexKey(data.dateString, t, data.userId)));
    if f.Some? {
      assert records[f.value] in records;
    }
    CreateKeepsWellFormed(records, nextId, types, data);
  }

  /** Every POST, whatever its outcome, leaves the collection well-formed:
      in particular at most one entry per (dateString, type, owner). */
  lemma PostKeepsCollectionWellFormed(records: seq<Holiday>, nextId: DocId, types: set<HolidayType>,
                                      requester: Option<UserId>, body: PostBody, serverOffset: int)
    requires WellFormed(records, nextId, types)
    ensures var r := PostResponse(records, nextId, types, requester, body, serverOffset);
      WellFormed(r.records, r.nextId, types)
  {
    var r := PostResponse(records, nextId, types, requester, body, serverOffset);
    if r.response.status == 201 {
      var t := ParseType(body.htype.value).value;
      CreateKeepsWellFormed(records, nextId, types, HolidayDataFor(t, requester.value, body, serverOffset));
    }
  }

  /** A valid date whose UTC+7 calendar date has a four-digit year, on a
      server within a day of UTC. */
  predicate PrintableDate(d: DateValue, serverOffset: int) {
    d.TimeValue? && IsTimeValue(d.t) && -1440 <= serverOffset <= 1440
    && IsTimeValue(ShiftedToWib(d.t, serverOffset))
    && FourDigitYear(CivilOfTime(d.t + WibOffsetMs).year)
  }

  /** A request the route accepts, for a date whose WIB year has four digits,
      a name that is not blank after trimming and no stored duplicate: what the
      store does with it depends only on whether its enum lists the type. */
  predicate AcceptableRequest(records: seq<Holiday>, requester: UserId, body: PostBody, serverOffset: int) {
    HasRequiredFields(body) && ParseType(body.htype.value).Some?
    && PrintableDate(body.date.value, serverOffset)
    && Trim(body.name.value) != ""
    && var t := ParseType(body.htype.value).value;
       FindFirst(records, HasKey(IndexKey(ToDateString(body.date.value, serverOffset), t,
                                          EffectiveOwner(t, requester)))).None?
  }

  /** The data an acceptable request hands to the store passes every
      validator except, perhaps, the enum, and clashes with no stored entry. */
  lemma AcceptableRequestIsAdmitted(records: seq<Holiday>, requester: UserId, body: PostBody, serverOffset: int)
    requires AcceptableRequest(records, requester, body, serverOffset)
    ensures var t := ParseType(body.htype.value).value;
      var data := HolidayDataFor(t, requester, body, serverOffset);
      data.htype == t && AdmittedBarEnum(data)
      && FindFirst(records, HasKey(IndexKey(data.dateString, data.htype, data.userId))).None?
  {
    PrintableDateHasAnchor(body.date.value, serverOffset);
  }

  lemma PrintableDateHasAnchor(d: DateValue, serverOffset: int)
    requires PrintableDate(d, serverOffset)
    ensures var ds := ToDateString(d, serverOffset);
      ds != "" && NoonAnchor(ds).Some?
  {
    var c := CivilOfTime(d.t + WibOffsetMs);
    ToDateStringIsWibDate(d.t, serverOffset);
    FormatKeyShape(c.year, c.month, c.day);
    NoonAnchorOfKey(c);
  }

  /** Every validator but the enum passes on `data`. */
  predicate AdmittedBarEnum(data: HolidayData) {
    data.date.Some? && IsTimeValue(data.date.value) && data.dateString != "" && Trim(data.name) != ""
  }

  /** For data that passes every other validator and has no stored
      duplicate, the store's enum alone decides between 201 and 500. */
  lemma EnumDecidesCreate(records: seq<Holiday>, nextId: DocId, types: set<HolidayType>, data: HolidayData)
    requires AdmittedBarEnum(data)
    requires FindFirst(records, HasKey(IndexKey(data.dateString, data.htype, data.userId))).None?
    ensures CreateResponse(records, nextId, types, data).response.status == if data.htype in types then 201 else 500
  {}

  /** With the schema's enum as written, a CUTI_BERSAMA entry the route accepts
      is refused by the store's validator: the answer is 500 and nothing is
      stored. */
  lemma CutiBersamaFailsWithSchemaAsWritten(records: seq<Holiday>, nextId: DocId, requester: UserId,
                                            body: PostBody, serverOffset: int)
    requires AcceptableRequest(records, requester, body, serverOffset)
    requires ParseType(body.htype.value) == Some(CutiBersama)
    ensures var r := PostResponse(records, nextId, SchemaTypesAsWritten, Some(requester), body, serverOffset);
      r.response.status == 500 && r.records == records
  {
    var data := HolidayDataFor(CutiBersama, requester, body, serverOffset);
    AcceptableRequestIsAdmitted(records, requester, body, serverOffset);
    EnumDecidesCreate(records, nextId, SchemaTypesAsWritten, data);
    SchemaAsWrittenLacksCutiBersama();
  }

  lemma SchemaAsWrittenLacksCutiBersama()
    ensures CutiBersama !in SchemaTypesAsWritten
  {}

  /** With the corrected enum, every type the route accepts is stored: the
      answer is 201 and the new entry is appended. */
  lemma RouteTypesStoredWithCorrectedSchema(records: seq<Holiday>, nextId: DocId, requester: UserId,
                                            body: PostBody, serverOffset: int)
    requires AcceptableRequest(records, requester, body, serverOffset)
    ensures var r := PostResponse(records, nextId, SchemaTypesCorrected, Some(requester), body, serverOffset);
      r.response.status == 201 && |r.records| == |records| + 1
  {
    var data := HolidayDataFor(ParseType(body.htype.value).value, requester, body, serverOffset);
    AcceptableRequestIsAdmitted(records, requester, body, serverOffset);
    EnumDecidesCreate(records, nextId, SchemaTypesCorrected, data);
  }

  method Post(store: HolidayCollection, requester: Option<UserId>, body: PostBody, serverOffset: int)
    returns (resp: Response<Holiday>)
    requires store.Valid()
    modifies store
    ensures store.Valid()
    ensures var e := PostResponse(old(store.records), old(store.nextId), store.types, requester, body, serverOffset);
      resp == e.response && store.records == e.records && store.nextId == e.nextId
  {
    if requester.None? {
      return Response(401, "Unauthorized", None);
    }
    if !HasRequiredFields(body) {
      return Response(400, MissingFieldsMessage, None);
    }
    var t := ParseType(body.htype.value);
    if t.None? {
      return Response(400, InvalidTypeMessage, None);
    }
    var data := HolidayDataFor(t.value, requester.value, body, serverOffset);
    var existing := store.FindOne(HasKey(IndexKey(data.dateString, t.value, data.userId)));
    if existing.Some? {
      return Response(409, DuplicateMessage(t.value, data.dateString), None);
    }
    var created := store.Create(data);
    match created {
      case Ok(h) =>
        resp := Response(201, CreatedMessage, Some(h));
      case Err(DuplicateKey) =>
        resp := Response(409, StoreDuplicateMessage, None);
      case Err(ValidationError) =>
        resp := Response(500, InternalError, None);
    }
  }

  // ---------------------------------------------------------------------------
  // DELETE
  // ---------------------------------------------------------------------------

  datatype DeleteResult = DeleteResult(response: Response<()>, records: seq<Holiday>)

  const MissingIdMessage: string := "Missing holiday id"
  const NotFoundMessage: string := "Holiday not found"
  const ForbiddenMessage: string := "Unauthorized: Cannot delete another user's entry"
  const DeletedMessage: string := "Holiday deleted successfully"

  /** The DELETE handler's answer and the collection afterwards. */
  function DeleteResponse(records: seq<Holiday>, requester: Option<UserId>, id: Option<DocId>)
    : (r: DeleteResult)
    ensures r.response.status in {200, 400, 401, 403, 404}
    ensures r.response.status == 401 <==> requester.None?
    ensures r.response.status != 200 ==> r.records == records
  {
    if requester.None? then DeleteResult(Response(401, "Unauthorized", None), records)
    else if id.None? then DeleteResult(Response(400, MissingIdMessage, None), records)
    else match FindFirst(records, HasId(id.value))
      case None => DeleteResult(Response(404, NotFoundMessage, None), records)
      case Some(i) =>
        if OwnerScoped(records[i].htype) && records[i].userId != requester then
          DeleteResult(Response(403, ForbiddenMessage, None), records)
        else DeleteResult(Response(200, DeletedMessage, Some(())), Filter(records, OtherThan(id.value)))
  }

  /** DELETE answers 404 for an unknown id, 403 for someone else's PERSONAL or
      PIKET entry, and otherwise removes exactly the record with that id: any
      authenticated requester may remove a GLOBAL or CUTI_BERSAMA entry. */
  lemma DeleteRemovesOnlyPermittedRecord(records: seq<Holiday>, nextId: DocId, types: set<HolidayType>,
                                         requester: UserId, h: Holiday)
    requires WellFormed(records, nextId, types)
    requires h in records
    ensures var r := DeleteResponse(records, Some(requester), Some(h.id));
      (r.response.status == 403 <==> OwnerScoped(h.htype) && h.userId != Some(requester))
      && (r.response.status == 200 <==> !(OwnerScoped(h.htype) && h.userId != Some(requester)))
      && (r.response.status == 200 ==>
            h !in r.records && |r.records| == |records| - 1
            && forall x :: x in records && x != h ==> x in r.records)
  {
    var i :| 0 <= i < |records| && records[i] == h;
    IdsAreDistinct(records, i);
    var f := FindFirst(records, HasId(h.id));
    assert f == Some(i) by {
      assert HasId(h.id)(records[i]);
    }
    var r := DeleteResponse(records, Some(requester), Some(h.id));
    if r.response.status == 200 {
      FilterDropsOne(records, i, OtherThan(h.id));
    }
  }

  /** In a collection whose documents are pairwise apart, no other document
      shares the id of the one at `i`. */
  lemma IdsAreDistinct(records: seq<Holiday>, i: nat)
    requires Pairwise(records, ApartPair()) && i < |records|
    ensures forall j :: 0 <= j < |records| && j != i ==> records[j].id != records[i].id
  {
    forall j | 0 <= j < |records| && j != i ensures records[j].id != records[i].id {
      if j < i {
        assert ApartPair()(records[j], records[i]);
      } else {
        assert ApartPair()(records[i], records[j]);
      }
    }
  }

  /** A missing id is 400 and an unknown one 404, with no change. */
  lemma DeleteRejectsMissingOrUnknownId(records: seq<Holiday>, requester: UserId, id: Option<DocId>)
    ensures var r := DeleteResponse(records, Some(requester), id);
      (r.response.status == 400 <==> id.None?)
      && (r.response.status == 404 <==> id.Some? && forall h :: h in records ==> h.id != id.value)
  {
    if id.Some? {
      var f := FindFirst(records, HasId(id.value));
      if f.Some? {
        assert records[f.value] in records;
      }
    }
  }

  method Delete(store: HolidayCollection, requester: Option<UserId>, id: Option<DocId>)
    returns (resp: Response<()>)
    requires store.Valid()
    modifies store
    ensures store.Valid() && store.nextId == old(store.nextId)
    ensures var e := DeleteResponse(old(store.records), requester, id);
      resp == e.response && store.records == e.records
  {
    if requester.None? {
      return Response(401, "Unauthorized", None);
    }
    if id.None? {
      return Response(400, MissingIdMessage, None);
    }
    var holiday := store.FindOne(HasId(id.value));
    if holiday.None? {
      return Response(404, NotFoundMessage, None);
    }
    if OwnerScoped(holiday.value.htype) && holiday.value.userId != requester {
      return Response(403, ForbiddenMessage, None);
    }
    store.FindByIdAndDelete(id.value);
    resp := Response(200, DeletedMessage, Some(()));
  }
}
