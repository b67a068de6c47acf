/** The query of GET /expenses: the parameters, the category list parsed from
    them, the `where` object the handler builds, and which rows it selects. */
module ExpenseQuery {
  import opened JsValues
  import opened Records
  import opened Tables

  /** The query parameters, each `Undefined` when absent; a parameter given
      more than once arrives as an `Arr`. */
  datatype Query = Query(
    userId: JsValue,
    categories: JsValue,
    from: JsValue,
    to: JsValue,
    limit: JsValue,
    offset: JsValue)

  /** The `where` object handed to the datastore: `userId = …`,
      `category IN (…)`, `spentAt >= …` and `spentAt <= …`, each optional. */
  datatype Where = Where(
    userId: Option<int>,
    categoryIn: Option<seq<JsValue>>,
    spentAtGte: Option<JsValue>,
    spentAtLte: Option<JsValue>)

  datatype Built = Built(where: Where) | Rejected(response: Response)

  /** `pieces.map((s) => s.trim())`. */
  function TrimEach(pieces: seq<string>): seq<string> {
    seq(|pieces|, i requires 0 <= i < |pieces| => Trim(pieces[i]))
  }

  /** `.filter(Boolean)` on strings: the non-empty ones, in order. */
  function DropEmpty(ss: seq<string>): (r: seq<string>)
    ensures forall x :: x in r <==> x in ss && x != []
  {
    if ss == [] then []
    else if ss[0] == [] then DropEmpty(ss[1..])
    else [ss[0]] + DropEmpty(ss[1..])
  }

  function AsStrings(ss: seq<string>): seq<JsValue> {
    seq(|ss|, i requires 0 <= i < |ss| => Str(ss[i]))
  }

  /** `categoryList`: a repeated parameter is used as it is; a single string
      is split on commas, each piece trimmed and the empty pieces dropped;
      anything else gives the empty list. */
  function CategoryList(categories: JsValue): seq<JsValue> {
    match categories
    case Arr(items) => items
    case Str(s) => AsStrings(DropEmpty(TrimEach(Split(s, ','))))
    case _ => []
  }

  /** For a comma-separated string, every entry of the list is a non-empty
      string without commas or surrounding whitespace. */
  lemma CategoryEntriesClean(s: string, c: JsValue)
    requires c in CategoryList(Str(s))
    ensures c.Str? && c.s != [] && Trim(c.s) == c.s && ',' !in c.s
  {
    var pieces := Split(s, ',');
    StrOf(DropEmpty(TrimEach(pieces)), c);
    EntryClean(pieces, c.s);
  }

  lemma StrOf(ss: seq<string>, c: JsValue)
    requires c in AsStrings(ss)
    ensures c.Str? && c.s in ss
  {
    var i :| 0 <= i < |ss| && AsStrings(ss)[i] == c;
  }

  lemma EntryClean(pieces: seq<string>, x: string)
    requires forall i :: 0 <= i < |pieces| ==> ',' !in pieces[i]
    requires x in DropEmpty(TrimEach(pieces))
    ensures x != [] && Trim(x) == x && ',' !in x
  {
    var trimmed := TrimEach(pieces);
    var j :| 0 <= j < |pieces| && trimmed[j] == x;
    TrimIdempotent(pieces[j]);
    TrimIsInfix(pieces[j]);
  }

  /** For a comma-separated string, every piece between commas that is not
      blank contributes its trim to the list. */
  lemma CategoryPiecesKept(s: string, p: string)
    requires p in Split(s, ',') && Trim(p) != []
    ensures Str(Trim(p)) in CategoryList(Str(s))
  {
    KeptIfNotBlank(Split(s, ','), p);
    StrIn(DropEmpty(TrimEach(Split(s, ','))), Trim(p));
  }

  /** The category list of a string holds exactly the trims of its
      comma-separated pieces that are not blank. */
  lemma CategoryListIff(s: string, c: JsValue)
    ensures c in CategoryList(Str(s)) <==> exists p :: p in Split(s, ',') && Trim(p) != [] && c == Str(Trim(p))
  {
    var pieces := Split(s, ',');
    if c in CategoryList(Str(s)) {
      var kept := DropEmpty(TrimEach(pieces));
      StrOf(kept, c);
      var j :| 0 <= j < |pieces| && TrimEach(pieces)[j] == c.s;
      assert pieces[j] in pieces && Trim(pieces[j]) != [] && c == Str(Trim(pieces[j]));
    }
    if exists p :: p in pieces && Trim(p) != [] && c == Str(Trim(p)) {
      var p :| p in pieces && Trim(p) != [] && c == Str(Trim(p));
      CategoryPiecesKept(s, p);
    }
  }

  lemma KeptIfNotBlank(pieces: seq<string>, p: string)
    requires p in pieces && Trim(p) != []
    ensures Trim(p) in DropEmpty(TrimEach(pieces))
  {
    var j :| 0 <= j < |pieces| && pieces[j] == p;
    assert TrimEach(pieces)[j] == Trim(p);
  }

  lemma StrIn(ss: seq<string>, x: string)
    requires x in ss
    ensures Str(x) in AsStrings(ss)
  {
    var i :| 0 <= i < |ss| && ss[i] == x;
    assert AsStrings(ss)[i] == Str(x);
  }

  /** Every character of `Trim(s)` is a character of `s`. */
  lemma TrimIsInfix(s: string)
    ensures forall c :: c in Trim(s) ==> c in s
  {
    var t := TrimStart(s);
    var r := Trim(s);
    TrimStartDropsWhitespace(s);
    TrimEndDropsWhitespace(t);
    forall c | c in r ensures c in s {
      var i :| 0 <= i < |r| && r[i] == c;
      assert r[i] == t[i];
      assert t[i] == s[|s| - |t| + i];
    }
  }

  /** The `userId` parameter filters only when it is neither null, undefined
      nor the empty string. */
  predicate UserFilterOn(userId: JsValue) {
    userId != Undefined && userId != Null && userId != Str("")
  }

  /** A `from` or `to` that is present (truthy) but not a valid date. */
  predicate BadDate(rt: Runtime, bound: JsValue) {
    Truthy(bound) && rt.toDate(bound).None?
  }

  /** `spentAt >= bound` as the datastore evaluates it on the column; a NULL
      column compares to nothing. */
  predicate NotBefore(rt: Runtime, spentAt: JsValue, bound: JsValue) {
    spentAt != Null && rt.toDate(spentAt).Some? && rt.toDate(bound).Some? && rt.toDate(bound).value <= rt.toDate(spentAt).value
  }

  /** `spentAt <= bound` as the datastore evaluates it on the column; a NULL
      column compares to nothing. */
  predicate NotAfter(rt: Runtime, spentAt: JsValue, bound: JsValue) {
    spentAt != Null && rt.toDate(spentAt).Some? && rt.toDate(bound).Some? && rt.toDate(spentAt).value <= rt.toDate(bound).value
  }

  /** `category IN (cats)`; a NULL column is in no list. */
  predicate CategoryIn(category: JsValue, cats: seq<JsValue>) {
    category != Null && category in cats
  }

  /** How the datastore evaluates a `where` object on one row. */
  predicate Matches(rt: Runtime, w: Where, e: Expense) {
    && (w.userId.None? || e.userId == w.userId.value)
    && (w.categoryIn.None? || CategoryIn(e.category, w.categoryIn.value))
    && (w.spentAtGte.None? || NotBefore(rt, e.spentAt, w.spentAtGte.value))
    && (w.spentAtLte.None? || NotAfter(rt, e.spentAt, w.spentAtLte.value))
  }

  /** Which expenses a valid query asks for, stated on the parameters
      themselves: the user when one is given, the category when the list is
      not empty, and a closed range of dates with either end optional. */
  predicate Selects(rt: Runtime, q: Query, e: Expense) {
    && (!UserFilterOn(q.userId) || rt.toNumber(q.userId) == Some(e.userId))
    && (CategoryList(q.categories) == [] || CategoryIn(e.category, CategoryList(q.categories)))
    && (!Truthy(q.from) || NotBefore(rt, e.spentAt, q.from))
    && (!Truthy(q.to) || NotAfter(rt, e.spentAt, q.to))
  }

  /** A `userId` that asks for filtering but does not parse. */
  predicate BadUserFilter(rt: Runtime, q: Query) {
    UserFilterOn(q.userId) && rt.toNumber(q.userId).None?
  }

  /** A `from` or `to` bound that does not parse. */
  predicate BadRange(rt: Runtime, q: Query) {
    BadDate(rt, q.from) || BadDate(rt, q.to)
  }

  /** Lines 145-192 of the handler: validate `userId`, parse `categories`,
      validate `from`/`to`, then fill the `where` object one condition at a
      time. A bad `userId` is rejected with a bare `sendStatus` 400, a bad date with a
      400 and its message; otherwise the `where` object selects exactly what
      the query asks for. */
  method BuildWhere(rt: Runtime, q: Query) returns (b: Built)
    ensures BadUserFilter(rt, q) ==> b == Rejected(Response(BAD_REQUEST, NoBody))
    ensures !BadUserFilter(rt, q) && BadRange(rt, q) ==>
      b == Rejected(Response(BAD_REQUEST, Message("Invalid date in from/to")))
    ensures b.Built? <==> !BadUserFilter(rt, q) && !BadRange(rt, q)
    ensures b.Built? ==> forall e :: Matches(rt, b.where, e) <==> Selects(rt, q, e)
  {
    var userIdNum: Option<int> := None;
    if UserFilterOn(q.userId) {
      userIdNum := rt.toNumber(q.userId);
      if userIdNum.None? {
        return Rejected(Response(BAD_REQUEST, NoBody));
      }
    }
    var categoryList := CategoryList(q.categories);
    var fromDate := if Truthy(q.from) then Some(q.from) else None;
    var toDate := if Truthy(q.to) then Some(q.to) else None;
    if BadDate(rt, q.from) || BadDate(rt, q.to) {
      return Rejected(Response(BAD_REQUEST, Message("Invalid date in from/to")));
    }
    var where := Where(None, None, None, None);
    if userIdNum.Some? {
      where := where.(userId := userIdNum);
    }
    if |categoryList| > 0 {
      where := where.(categoryIn := Some(categoryList));
    }
    if fromDate.Some? || toDate.Some? {
      if fromDate.Some? {
        where := where.(spentAtGte := fromDate);
      }
      if toDate.Some? {
        where := where.(spentAtLte := toDate);
      }
    }
    return Built(where);
  }

  /** A missing or empty `userId`, an absent or blank `categories` and
      absent `from`/`to` select every expense. */
  lemma NoFiltersSelectAll(rt: Runtime, q: Query, e: Expense)
    requires !UserFilterOn(q.userId) && !Truthy(q.from) && !Truthy(q.to)
    requires q.categories == Undefined || (q.categories.Str? && AllWhitespace(q.categories.s))
    ensures Selects(rt, q, e)
  {
    if q.categories.Str? {
      BlankHasNoCategories(q.categories.s);
    }
  }

  /** An absent, null or empty `userId` filters nothing, and falsy `from`
      and `to` are neither rejected nor used: the query selects what it
      would select without them. */
  lemma IgnoredParameters(rt: Runtime, q: Query, e: Expense)
    ensures !UserFilterOn(q.userId) ==> (Selects(rt, q, e) <==> Selects(rt, q.(userId := Undefined), e))
    ensures !Truthy(q.from) ==> !BadDate(rt, q.from) && (Selects(rt, q, e) <==> Selects(rt, q.(from := Undefined), e))
    ensures !Truthy(q.to) ==> !BadDate(rt, q.to) && (Selects(rt, q, e) <==> Selects(rt, q.(to := Undefined), e))
  {
  }

  /** A `userId` that parses keeps exactly the expenses of that user. */
  lemma UserFilterExact(rt: Runtime, q: Query, e: Expense)
    requires UserFilterOn(q.userId) && rt.toNumber(q.userId).Some?
    requires q.categories == Undefined && !Truthy(q.from) && !Truthy(q.to)
    ensures Selects(rt, q, e) <==> e.userId == rt.toNumber(q.userId).value
  {
  }

  /** With only `from` and `to` given, an expense is selected exactly when
      its date is not NULL, parses and lies between the two, both ends
      included. */
  lemma DateRangeInclusive(rt: Runtime, q: Query, e: Expense)
    requires !UserFilterOn(q.userId) && q.categories == Undefined
    requires Truthy(q.from) && Truthy(q.to) && !BadRange(rt, q)
    ensures Selects(rt, q, e) <==>
      e.spentAt != Null && rt.toDate(e.spentAt).Some? && rt.toDate(q.from).value <= rt.toDate(e.spentAt).value <= rt.toDate(q.to).value
  {
  }

  /** A row whose `spentAt` is NULL (a PATCH may store one) is left out by
      any date bound, whatever `new Date(null)` gives. */
  lemma NullDateNeverInRange(rt: Runtime, q: Query, e: Expense)
    requires e.spentAt == Null && (Truthy(q.from) || Truthy(q.to))
    ensures !Selects(rt, q, e)
  {
  }

  /** The empty `where` object the handler starts from matches every row. */
  lemma EmptyWhereMatchesAll(rt: Runtime, e: Expense)
    ensures Matches(rt, Where(None, None, None, None), e)
  {
  }

  /** A string with no characters other than whitespace yields no category. */
  lemma BlankHasNoCategories(s: string)
    requires AllWhitespace(s)
    ensures CategoryList(Str(s)) == []
  {
    var pieces := Split(s, ',');
    PiecesOfBlankAreBlank(s);
    var trimmed := TrimEach(pieces);
    forall i | 0 <= i < |trimmed| ensures trimmed[i] == [] {
      TrimIsEmptyIffBlank(pieces[i]);
    }
    OnlyEmptiesDropped(trimmed);
  }

  lemma {:induction false} OnlyEmptiesDropped(ss: seq<string>)
    requires forall i :: 0 <= i < |ss| ==> ss[i] == []
    ensures DropEmpty(ss) == []
  {
    if ss != [] {
      OnlyEmptiesDropped(ss[1..]);
    }
  }

  /** Every comma-separated piece of a blank string is blank. */
  lemma {:induction false} PiecesOfBlankAreBlank(s: string)
    requires AllWhitespace(s)
    ensures forall i :: 0 <= i < |Split(s, ',')| ==> AllWhitespace(Split(s, ',')[i])
  {
    if s != [] {
      PiecesOfBlankAreBlank(s[1..]);
      assert IsJsWhitespace(s[0]) && s[0] != ',';
    }
  }

  /** A `limit` or `offset` parameter counts only when it is truthy and
      `Number` does not make NaN of it. */
  function PageParam(rt: Runtime, v: JsValue): Option<int> {
    if Truthy(v) && rt.toNumber(v).Some? then rt.toNumber(v) else None
  }

  /** A `limit` or `offset` that counts but is negative: the datastore
      refuses the query. */
  predicate NegativePage(rt: Runtime, q: Query) {
    (PageParam(rt, q.limit).Some? && PageParam(rt, q.limit).value < 0)
    || (PageParam(rt, q.offset).Some? && PageParam(rt, q.offset).value < 0)
  }

  /** The OFFSET of the query: 0 unless `offset` counts. */
  function OffsetOf(rt: Runtime, q: Query): nat {
    var o := PageParam(rt, q.offset);
    if o.Some? && o.value >= 0 then o.value else 0
  }

  /** The LIMIT of the query: none unless `limit` counts. */
  function LimitOf(rt: Runtime, q: Query): Option<nat> {
    var l := PageParam(rt, q.limit);
    if l.Some? && l.value >= 0 then Some(l.value) else None
  }

  /** What `limit` and `offset` do to a listing `s` when neither is negative:
      the page starts at the parsed `offset`, or at the first row when
      `offset` is falsy or does not parse; it runs to the end of the listing
      when `limit` is falsy or does not parse, and holds at most the parsed
      `limit` rows otherwise. */
  lemma PageParams(rt: Runtime, q: Query, s: seq<Expense>)
    requires !NegativePage(rt, q)
    ensures var page := Paginate(s, OffsetOf(rt, q), LimitOf(rt, q));
      var start := if Truthy(q.offset) && rt.toNumber(q.offset).Some? then rt.toNumber(q.offset).value else 0;
      && 0 <= start && start == OffsetOf(rt, q)
      && (forall i :: 0 <= i < |page| ==> start + i < |s| && page[i] == s[start + i])
      && ((!Truthy(q.limit) || rt.toNumber(q.limit).None?) ==> |page| == if start < |s| then |s| - start else 0)
      && (Truthy(q.limit) && rt.toNumber(q.limit).Some? ==>
            0 <= rt.toNumber(q.limit).value
            && |page| == if start + rt.toNumber(q.limit).value <= |s| then rt.toNumber(q.limit).value
                         else if start < |s| then |s| - start else 0)
  {
  }

  /** Which rows the datastore returns for a `where` object, before LIMIT and
      OFFSET: the table's rows with ids in `[1, hi)` that match, by ascending id. */
  function FindAll(rt: Runtime, w: Where, rows: map<int, Expense>, hi: int): seq<Expense> {
    var ids := IdsInRange(rows, 1, hi);
    ValuesAt(rows, SelectIds(rows, ids, e => Matches(rt, w, e)))
  }

  /** Which rows a query asks for, before LIMIT and OFFSET. */
  function Listing(rt: Runtime, q: Query, rows: map<int, Expense>, hi: int): seq<Expense> {
    var ids := IdsInRange(rows, 1, hi);
    ValuesAt(rows, SelectIds(rows, ids, e => Selects(rt, q, e)))
  }

  /** Over a table whose rows carry their own ids below `hi`, the listing
      holds exactly the rows that the query selects, each once, by ascending id. */
  lemma ListingCorrect(rt: Runtime, q: Query, rows: map<int, Expense>, hi: int)
    requires forall k :: k in rows ==> rows[k].id == k && 1 <= k < hi
    ensures var rs := Listing(rt, q, rows, hi);
      && (forall i, j :: 0 <= i < j < |rs| ==> rs[i].id < rs[j].id)
      && (forall e :: e in rs <==> e.id in rows && rows[e.id] == e && Selects(rt, q, e))
  {
    var p := (e: Expense) => Selects(rt, q, e);
    var ids := IdsInRange(rows, 1, hi);
    var sel := SelectIds(rows, ids, p);
    var rs := ValuesAt(rows, sel);
    assert forall i :: 0 <= i < |rs| ==> rs[i].id == sel[i];
    forall e: Expense | e.id in rows && rows[e.id] == e && Selects(rt, q, e) ensures e in rs {
      ListingComplete(rows, ids, p, e, hi);
    }
    forall e: Expense | e in rs ensures e.id in rows && rows[e.id] == e && Selects(rt, q, e) {
      ListingSound(rows, sel, p, e);
    }
  }

  lemma ListingComplete(rows: map<int, Expense>, ids: seq<int>, p: Expense -> bool, e: Expense, hi: int)
    requires ids == IdsInRange(rows, 1, hi)
    requires forall k :: k in rows ==> rows[k].id == k && 1 <= k < hi
    requires e.id in rows && rows[e.id] == e && p(e)
    ensures e in ValuesAt(rows, SelectIds(rows, ids, p))
  {
    var sel := SelectIds(rows, ids, p);
    assert e.id in ids;
    var i :| 0 <= i < |ids| && ids[i] == e.id;
    assert p(rows[ids[i]]);
    var k :| 0 <= k < |sel| && sel[k] == e.id;
    assert ValuesAt(rows, sel)[k] == e;
  }

  lemma ListingSound(rows: map<int, Expense>, sel: seq<int>, p: Expense -> bool, e: Expense)
    requires forall k :: k in rows ==> rows[k].id == k
    requires forall i :: 0 <= i < |sel| ==> sel[i] in rows && p(rows[sel[i]])
    requires e in ValuesAt(rows, sel)
    ensures e.id in rows && rows[e.id] == e && p(e)
  {
    var k :| 0 <= k < |sel| && ValuesAt(rows, sel)[k] == e;
    assert rows[sel[k]] == e;
    assert rows[sel[k]].id == sel[k];
  }

  /** The page GET /expenses sends: stored rows the query selects, by
      ascending id; without `limit` and `offset`, every such row. */
  lemma PageOfListing(rt: Runtime, q: Query, rows: map<int, Expense>, hi: int)
    requires forall k :: k in rows ==> rows[k].id == k && 1 <= k < hi
    ensures var page := Paginate(Listing(rt, q, rows, hi), OffsetOf(rt, q), LimitOf(rt, q));
      && (forall i, j :: 0 <= i < j < |page| ==> page[i].id < page[j].id)
      && (forall e :: e in page ==> e.id in rows && rows[e.id] == e && Selects(rt, q, e))
      && (OffsetOf(rt, q) == 0 && LimitOf(rt, q).None? ==>
            forall e: Expense :: e.id in rows && rows[e.id] == e && Selects(rt, q, e) ==> e in page)
  {
    var rs := Listing(rt, q, rows, hi);
    ListingCorrect(rt, q, rows, hi);
    var offset, limit := OffsetOf(rt, q), LimitOf(rt, q);
    PaginateWithin(rs, offset, limit);
    PageAscending(rs, offset, limit);
  }

  /** A page of a listing by ascending id is itself by ascending id. */
  lemma PageAscending(rs: seq<Expense>, offset: nat, limit: Option<nat>)
    requires forall i, j :: 0 <= i < j < |rs| ==> rs[i].id < rs[j].id
    ensures var page := Paginate(rs, offset, limit);
      forall i, j :: 0 <= i < j < |page| ==> page[i].id < page[j].id
  {
    var page := Paginate(rs, offset, limit);
    forall i, j | 0 <= i < j < |page| ensures page[i].id < page[j].id {
      assert page[i] == rs[offset + i] && page[j] == rs[offset + j];
    }
  }

  /** When the `where` object agrees with the query on every row, the
      datastore returns the listing. */
  lemma FindAllIsListing(rt: Runtime, w: Where, q: Query, rows: map<int, Expense>, hi: int)
    requires forall e :: Matches(rt, w, e) <==> Selects(rt, q, e)
    ensures FindAll(rt, w, rows, hi) == Listing(rt, q, rows, hi)
  {
    var ids := IdsInRange(rows, 1, hi);
    SelectIdsAgree(rows, ids, e => Matches(rt, w, e), e => Selects(rt, q, e));
  }
}
