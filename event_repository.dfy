/** The event repository: single-event lookup with not-found normalisation, and the
    paginated, filterable, sortable listing built from an options object. */
module EventRepository {
  import opened Wrappers
  import opened Text
  import opened Storage

  /** The listing options of one request. Every filter is optional (a nil pointer is
      `None`); page and size are normalised in place by `GetPaginated`. */
  class EventQueryOptions {
    var id: Option<nat>
    var name: Option<string>
    var description: Option<string>
    var date: Option<string>
    var time: Option<string>
    var venueId: Option<nat>
    var page: int
    var size: int
    var sort: string
    var order: string
  }

  /** The slice the fetched page is written into. */
  class EventSlice {
    var items: seq<Event>
  }

  // ---------------------------------------------------------------------------
  // Filters

  /** A numeric filter is in force when its pointer is set and its value is not zero. */
  predicate HasNumber(o: Option<nat>) {
    o.Some? && o.value != 0
  }

  /** A text filter is in force when its pointer is set and its value is not empty. */
  predicate HasText(o: Option<string>) {
    o.Some? && o.value != ""
  }

  predicate NoFilters(opts: EventQueryOptions)
    reads opts
  {
    !HasNumber(opts.id) && !HasText(opts.name) && !HasText(opts.description) &&
    !HasText(opts.date) && !HasText(opts.time) && !HasNumber(opts.venueId)
  }

  /** Which events the options ask for, field by field: an id or venue equal to the one
      given, a name or description containing the given text whatever the case of
      either, a date or time equal to the one given; a filter not in force asks nothing. */
  predicate Selects(opts: EventQueryOptions, e: Event)
    reads opts
  {
    (HasNumber(opts.id) ==> e.id == opts.id.value) &&
    (HasText(opts.name) ==> Contains(Lower(e.name), Lower(opts.name.value))) &&
    (HasText(opts.description) ==> Contains(Lower(e.description), Lower(opts.description.value))) &&
    (HasText(opts.date) ==> e.date == opts.date.value) &&
    (HasText(opts.time) ==> e.time == opts.time.value) &&
    (HasNumber(opts.venueId) ==> e.venueId == opts.venueId.value)
  }

  /** The condition a filter adds: `c` when the filter is in force, nothing otherwise. */
  function Guarded(inForce: bool, c: Condition): (r: seq<Condition>)
    ensures forall e :: Satisfies(r, e) <==> (inForce ==> Holds(c, e))
    ensures r == [] <==> !inForce
  {
    SatisfiesSingle(c);
    if inForce then [c] else []
  }

  /** The WHERE conditions of the listing, one per filter in force, AND-composed. */
  function FilterConditions(opts: EventQueryOptions): (r: seq<Condition>)
    reads opts
    ensures forall e :: Satisfies(r, e) <==> Selects(opts, e)
    ensures r == [] <==> NoFilters(opts)
  {
    var byId := Guarded(HasNumber(opts.id), IdIs(opts.id.GetOr(0)));
    var byName := Guarded(HasText(opts.name), NameContains(opts.name.GetOr("")));
    var byDescription := Guarded(HasText(opts.description), DescriptionContains(opts.description.GetOr("")));
    var byDate := Guarded(HasText(opts.date), DateIs(opts.date.GetOr("")));
    var byTime := Guarded(HasText(opts.time), TimeIs(opts.time.GetOr("")));
    var byVenue := Guarded(HasNumber(opts.venueId), VenueIs(opts.venueId.GetOr(0)));
    SatisfiesAppend(byId, byName);
    SatisfiesAppend(byId + byName, byDescription);
    SatisfiesAppend(byId + byName + byDescription, byDate);
    SatisfiesAppend(byId + byName + byDescription + byDate, byTime);
    SatisfiesAppend(byId + byName + byDescription + byDate + byTime, byVenue);
    byId + byName + byDescription + byDate + byTime + byVenue
  }

  // ---------------------------------------------------------------------------
  // Sorting

  /** The fields a listing may be sorted on, spelled as the allow-list spells them. */
  const SortFields: set<string> := {"ID", "name", "description", "date", "time", "venue_id", "created_at"}

  /** The accepted directions, after lower-casing. */
  const SortDirections: set<string> := {"asc", "desc"}

  /** The order applied to a sort request that is not on the allow-list. */
  const DefaultOrder: string := "created_at DESC"

  /** Every ORDER BY text the repository can produce: an allowed field, one space and
      an allowed direction, or the default order. */
  const OrderClauses: set<string> :=
    (set field, direction | field in SortFields && direction in SortDirections :: field + " " + direction)
    + {DefaultOrder}

  /** A clause built from an allowed direction ends in a lower-case letter, so it is
      never the default clause. */
  lemma BuiltClauseIsNotDefault(sort: string, direction: string)
    requires direction in SortDirections
    ensures sort + " " + direction != DefaultOrder
  {
    var clause := sort + " " + direction;
    assert clause[|clause| - 1] == direction[|direction| - 1] == 'c';
    assert DefaultOrder[|DefaultOrder| - 1] == 'C';
  }

  /** The ORDER BY clause for a sort field and direction: none when no field is asked
      for, the field and the lower-cased direction when both are allowed, and the
      default order otherwise. No text outside `OrderClauses` is ever produced. */
  function SortOrder(sort: string, order: string): (r: Option<string>)
    ensures r.None? <==> sort == ""
    ensures r.Some? ==> r.value in OrderClauses
    ensures (r.Some? && r.value != DefaultOrder) <==> (sort in SortFields && Lower(order) in SortDirections)
    ensures r.Some? && r.value != DefaultOrder ==> ParseOrder(r.value) == Some(OrderBy(sort, Lower(order)))
  {
    if sort == "" then None
    else
      var direction := Lower(order);
      if sort in SortFields && direction in SortDirections then
        ParseOrderJoin(sort, direction);
        BuiltClauseIsNotDefault(sort, direction);
        assert sort + " " + direction in OrderClauses;
        Some(sort + " " + direction)
      else
        Some(DefaultOrder)
  }

  /** The query the listing runs: the filter conditions and the sort clause. */
  function BuildPaginatedQuery(opts: EventQueryOptions): (q: Query)
    reads opts
    ensures forall e :: Satisfies(q.conditions, e) <==> Selects(opts, e)
    ensures q.order.None? <==> opts.sort == ""
    ensures q.order.Some? ==> q.order.value in OrderClauses
  {
    Query(FilterConditions(opts), SortOrder(opts.sort, opts.order))
  }

  /** Every allowed field is a single word naming a column of the table, once SQL
      folds its case. */
  lemma SortFieldIsColumn(sort: string)
    requires sort in SortFields
    ensures ' ' !in sort
    ensures Lower(sort) in Columns
  {
    if sort == "ID" {
      assert Lower("ID") == "id";
    } else if sort == "name" {
      LowerOfLowerCase("name");
    } else if sort == "description" {
      LowerOfLowerCase("description");
    } else if sort == "date" {
      LowerOfLowerCase("date");
    } else if sort == "time" {
      LowerOfLowerCase("time");
    } else if sort == "venue_id" {
      LowerOfLowerCase("venue_id");
    } else {
      assert sort == "created_at";
      LowerOfLowerCase("created_at");
    }
  }

  /** The clause built for an allowed field and direction sorts on that column in the
      lower-cased direction. */
  lemma AllowedSortArranges(sort: string, order: string, rows: seq<Event>)
    requires sort in SortFields && Lower(order) in SortDirections
    ensures Lower(sort) in Columns
    ensures Arrange(rows, SortOrder(sort, order)) == Ok(SortBy(rows, Lower(sort), Lower(order) == "desc"))
  {
    var direction := Lower(order);
    SortFieldIsColumn(sort);
    ParseOrderJoin(sort, direction);
    assert SortOrder(sort, order) == Some(sort + " " + direction);
    LowerOfLowerCase(direction);
    assert Descending(direction) == Some(direction == "desc");
  }

  /** The default clause reads as the creation-time column and a direction. */
  lemma DefaultOrderParses()
    ensures ParseOrder(DefaultOrder) == Some(OrderBy("created_at", "DESC"))
  {
    ParseOrderJoin("created_at", "DESC");
    assert "created_at" + " " + "DESC" == DefaultOrder;
  }

  /** ... and that column and direction are the creation time, descending. */
  lemma DefaultOrderIsNewestFirst()
    ensures Lower("created_at") == "created_at" && Descending("DESC") == Some(true)
  {
    LowerOfLowerCase("created_at");
    assert Lower("DESC") == "desc";
  }

  /** A non-empty sort request off the allow-list gets the default clause, which sorts
      by creation time, newest first. */
  lemma FallbackSortArranges(sort: string, order: string, rows: seq<Event>)
    requires sort != "" && !(sort in SortFields && Lower(order) in SortDirections)
    ensures Arrange(rows, SortOrder(sort, order)) == Ok(SortBy(rows, "created_at", true))
  {
    assert SortOrder(sort, order) == Some(DefaultOrder);
    DefaultOrderParses();
    DefaultOrderIsNewestFirst();
  }

  /** The order clause the repository builds always executes, keeps every selected row,
      and sorts them as asked: no clause keeps table order, an allowed field and
      direction sorts on that column, anything else sorts by creation time, newest
      first. */
  lemma SortOrderArranges(sort: string, order: string, rows: seq<Event>)
    ensures Arrange(rows, SortOrder(sort, order)).Ok?
    ensures multiset(Arrange(rows, SortOrder(sort, order)).value) == multiset(rows)
    ensures sort == "" ==> Arrange(rows, SortOrder(sort, order)).value == rows
    ensures sort in SortFields && Lower(order) in SortDirections ==>
              Lower(sort) in Columns &&
              Sorted(Arrange(rows, SortOrder(sort, order)).value, Lower(sort), Lower(order) == "desc")
    ensures sort != "" && !(sort in SortFields && Lower(order) in SortDirections) ==>
              Sorted(Arrange(rows, SortOrder(sort, order)).value, "created_at", true)
  {
    if sort == "" {
    } else if sort in SortFields && Lower(order) in SortDirections {
      AllowedSortArranges(sort, order, rows);
      SortBySorted(rows, Lower(sort), Lower(order) == "desc");
    } else {
      FallbackSortArranges(sort, order, rows);
      SortBySorted(rows, "created_at", true);
    }
  }

  /** The allow-list spells the identifier field "ID": a request to sort on "id" gets
      the default order. */
  lemma LowerCaseIdFallsBack(order: string)
    ensures SortOrder("id", order) == Some(DefaultOrder)
  {
  }

  // ---------------------------------------------------------------------------
  // Lookup

  /** Fetches the event with the given id. A missing row, or any error whose chain holds
      the not-found error, becomes exactly `RecordNotFound`; every other error is passed
      through unchanged. */
  function GetByID(db: Database, id: nat): (r: Result<Event, DbError>)
    ensures r.Ok? <==> db.findFault.None? && exists e :: e in db.rows && e.id == id
    ensures r.Ok? ==> r.value in db.rows && r.value.id == id
    ensures r.Err? ==> (r.error == RecordNotFound <==> db.findFault.None? || IsNotFound(db.findFault.value))
    ensures r.Err? && r.error != RecordNotFound ==> db.findFault == Some(r.error)
  {
    match StoreFirst(db, id)
    case Ok(e) => Ok(e)
    case Err(e) => if IsNotFound(e) then Err(RecordNotFound) else Err(e)
  }

  /** An id that no row has is not found by the lookup, and as a listing filter it
      selects nothing. */
  lemma UnknownIdFindsNothing(db: Database, id: nat, opts: EventQueryOptions)
    requires db.findFault.None?
    requires forall e :: e in db.rows ==> e.id != id
    requires opts.id == Some(id) && id != 0
    ensures GetByID(db, id) == Err(RecordNotFound)
    ensures Select(db.rows, BuildPaginatedQuery(opts).conditions) == []
  {
    var s := Select(db.rows, BuildPaginatedQuery(opts).conditions);
    if s != [] {
      assert s[0] in s;
    }
  }

  // ---------------------------------------------------------------------------
  // Pagination

  /** The statements `GetPaginated` sends to the database, in order. */
  datatype Statement =
    | CountStatement(query: Query)
    | FindStatement(query: Query, offset: nat, limit: nat)

  /** The number of rows before page `page` when pages hold `size` rows. */
  function Offset(page: int, size: int): (r: nat)
    requires page >= 1 && size >= 1
    ensures r + size == page * size
  {
    (page - 1) * size
  }

  /** Lists one page of events. Page and size are normalised in place (a page of 0 or
      less becomes 1, a size of 0 or less becomes 10), and then the listing runs
      (`RunPaginated`). */
  method GetPaginated(db: Database, events: EventSlice, opts: EventQueryOptions)
    returns (total: int, err: Option<DbError>, ghost statements: seq<Statement>)
    modifies opts`page, opts`size, events`items
    ensures opts.page == (if old(opts.page) <= 0 then 1 else old(opts.page))
    ensures opts.size == (if old(opts.size) <= 0 then 10 else old(opts.size))
    ensures opts.page >= 1 && opts.size >= 1
    ensures |statements| >= 1 && statements[0] == CountStatement(BuildPaginatedQuery(opts))
    ensures db.countFault.Some? ==>
              total == 0 && err == db.countFault && |statements| == 1 && events.items == old(events.items)
    ensures db.countFault.None? ==>
              statements == [CountStatement(BuildPaginatedQuery(opts)), FindStatement(BuildPaginatedQuery(opts), Offset(opts.page, opts.size), opts.size)]
    ensures db.countFault.None? && db.findFault.Some? ==>
              total == 0 && err == db.findFault && events.items == old(events.items)
    ensures err.None? <==> db.countFault.None? && db.findFault.None?
    ensures err.None? ==>
              total == |Select(db.rows, BuildPaginatedQuery(opts).conditions)| && events.items == Fetch(db, opts).value
    ensures err.None? ==>
              |events.items| <= opts.size && forall e :: e in events.items ==> e in db.rows && Selects(opts, e)
  {
    if opts.page <= 0 {
      opts.page := 1;
    }
    if opts.size <= 0 {
      opts.size := 10;
    }
    total, err, statements := RunPaginated(db, events, opts);
  }

  /** The listing proper, once page and size are normalised: the total number of
      matching rows is counted, and then the page at offset (page - 1) * size, at most
      size rows, is fetched into `events`. A failed count stops there; either failure
      yields a total of 0 with the error and leaves `events` as it was. */
  method RunPaginated(db: Database, events: EventSlice, opts: EventQueryOptions)
    returns (total: int, err: Option<DbError>, ghost statements: seq<Statement>)
    requires opts.page >= 1 && opts.size >= 1
    modifies events`items
    ensures |statements| >= 1 && statements[0] == CountStatement(BuildPaginatedQuery(opts))
    ensures db.countFault.Some? ==>
              total == 0 && err == db.countFault && |statements| == 1 && events.items == old(events.items)
    ensures db.countFault.None? ==>
              statements == [CountStatement(BuildPaginatedQuery(opts)), FindStatement(BuildPaginatedQuery(opts), Offset(opts.page, opts.size), opts.size)]
    ensures db.countFault.None? && db.findFault.Some? ==>
              total == 0 && err == db.findFault && events.items == old(events.items)
    ensures err.None? <==> db.countFault.None? && db.findFault.None?
    ensures err.None? ==>
              total == |Select(db.rows, BuildPaginatedQuery(opts).conditions)| && events.items == Fetch(db, opts).value
    ensures err.None? ==>
              |events.items| <= opts.size && forall e :: e in events.items ==> e in db.rows && Selects(opts, e)
  {
    var query := BuildPaginatedQuery(opts);

    statements := [CountStatement(query)];
    var counted := StoreCount(db, query);
    if counted.Err? {
      return 0, Some(counted.error), statements;
    }

    var offset := (opts.page - 1) * opts.size;
    assert offset == Offset(opts.page, opts.size);
    statements := statements + [FindStatement(query, offset, opts.size)];
    assert statements == [CountStatement(query), FindStatement(query, offset, opts.size)];
    var found := StoreFind(db, query, offset, opts.size);
    assert found == Fetch(db, opts);
    if found.Err? {
      return 0, Some(found.error), statements;
    }
    events.items := found.value;
    assert query == BuildPaginatedQuery(opts) && found == Fetch(db, opts);

    return counted.value, None, statements;
  }

  /** The SELECT a listing with these (normalised) options sends: its query, at the
      offset of its page, limited to its size. Unless the statement fails, the page is
      the window at (page - 1) * size of the matching rows in the order the sort clause
      gives them. */
  function Fetch(db: Database, opts: EventQueryOptions): (r: Result<seq<Event>, DbError>)
    reads opts
    requires opts.page >= 1 && opts.size >= 1
    ensures db.findFault.Some? ==> r == Err(db.findFault.value)
    ensures db.findFault.None? ==> r == Ok(Window(Listing(db, opts), Offset(opts.page, opts.size), opts.size))
    ensures r.Ok? ==> |r.value| <= opts.size
    ensures r.Ok? ==> forall e :: e in r.value ==> e in db.rows && Selects(opts, e)
  {
    var query := BuildPaginatedQuery(opts);
    assert query == Query(FilterConditions(opts), SortOrder(opts.sort, opts.order));
    assert Arrange(Select(db.rows, query.conditions), query.order) == Ok(Listing(db, opts));
    StoreFind(db, query, Offset(opts.page, opts.size), opts.size)
  }

  /** Every row the options select, each as often as in the table, in the order the
      sort clause gives them. */
  function Listing(db: Database, opts: EventQueryOptions): (r: seq<Event>)
    reads opts
    ensures Arrange(Select(db.rows, FilterConditions(opts)), SortOrder(opts.sort, opts.order)) == Ok(r)
    ensures multiset(r) == multiset(Select(db.rows, FilterConditions(opts)))
  {
    SortOrderArranges(opts.sort, opts.order, Select(db.rows, FilterConditions(opts)));
    Arrange(Select(db.rows, FilterConditions(opts)), SortOrder(opts.sort, opts.order)).value
  }

  /** The page fetched is what page `page` adds to pages 1 to `page - 1` of the sorted
      listing; by `PagesCover`, pages fetched one after the other are therefore a prefix
      of that listing, with no row skipped or fetched twice. */
  lemma {:induction false} FetchedPagesCover(db: Database, opts: EventQueryOptions)
    requires db.findFault.None?
    requires opts.page >= 1 && opts.size >= 1
    ensures Fetch(db, opts).Ok?
    ensures Pages(Listing(db, opts), opts.size, opts.page) ==
              Pages(Listing(db, opts), opts.size, opts.page - 1) + Fetch(db, opts).value
  {
    assert Fetch(db, opts).value == Window(Listing(db, opts), Offset(opts.page, opts.size), opts.size);
  }

  /** 25 matching rows in pages of 10: page 2 holds rows 11 to 20 of the listing in its
      sort order, and the count is 25. */
  lemma {:induction false} SecondPageOfTwentyFive(db: Database, opts: EventQueryOptions)
    requires db.countFault.None? && db.findFault.None?
    requires opts.page == 2 && opts.size == 10
    requires |Select(db.rows, FilterConditions(opts))| == 25
    ensures StoreCount(db, BuildPaginatedQuery(opts)) == Ok(25)
    ensures |Listing(db, opts)| == 25
    ensures Fetch(db, opts) == Ok(Listing(db, opts)[10..20])
  {
    var page := Fetch(db, opts);
    var listing := Listing(db, opts);
    assert |multiset(listing)| == 25;
  }

  /** Pages 1 to `n` of `rows`, each cut at its own offset, one after the other. */
  function Pages(rows: seq<Event>, size: int, n: nat): seq<Event>
    requires size >= 1
  {
    if n == 0 then [] else Pages(rows, size, n - 1) + Window(rows, Offset(n, size), size)
  }

  /** Concatenating pages 1 to `n` gives the first n * size rows with nothing skipped
      or repeated: page boundaries are deterministic once the order is. */
  lemma {:induction false} PagesCover(rows: seq<Event>, size: int, n: nat)
    requires size >= 1
    ensures Pages(rows, size, n) == rows[..Min(n * size, |rows|)]
  {
    if n > 0 {
      PagesCover(rows, size, n - 1);
      PrefixThenWindow(rows, Offset(n, size), size);
    }
  }

  /** The rows before `offset` followed by the window at `offset` are the rows before
      `offset + size`. */
  lemma PrefixThenWindow(rows: seq<Event>, offset: nat, size: nat)
    ensures rows[..Min(offset, |rows|)] + Window(rows, offset, size) == rows[..Min(offset + size, |rows|)]
  {
    var lo, hi := Min(offset, |rows|), Min(offset + size, |rows|);
    assert Window(rows, offset, size) == rows[lo..hi];
    assert rows[..lo] + rows[lo..hi] == rows[..hi];
  }

  /** With no filter in force every row of the table is selected. */
  lemma {:induction false} NoFiltersSelectEveryRow(opts: EventQueryOptions, rows: seq<Event>)
    requires NoFilters(opts)
    ensures Select(rows, BuildPaginatedQuery(opts).conditions) == rows
  {
    SelectWithoutConditions(rows);
  }

  /** The name filter ignores case on both sides: "EVE" selects "Annual Event". */
  lemma NameFilterIgnoresCase(opts: EventQueryOptions, e: Event)
    requires opts.name == Some("EVE") && e.name == "Annual Event"
    requires !HasNumber(opts.id) && !HasText(opts.description) && !HasText(opts.date)
    requires !HasText(opts.time) && !HasNumber(opts.venueId)
    ensures Satisfies(BuildPaginatedQuery(opts).conditions, e)
  {
    var text, pattern := Lower(e.name), Lower("EVE");
    assert pattern == "eve";
    assert text[7..10] == "eve";
    assert OccursAt(text, pattern, 7);
  }

  // ---------------------------------------------------------------------------
  // The offset as Go computes it

  const TwoTo63: int := 0x8000_0000_0000_0000
  const TwoTo64: int := 0x1_0000_0000_0000_0000

  /** A value of Go's 64-bit `int`. */
  predicate IsGoInt(x: int) {
    -TwoTo63 <= x < TwoTo63
  }

  /** The 64-bit two's-complement value an overflowing Go `int` computation yields. */
  function WrapGoInt(x: int): (r: int)
    ensures IsGoInt(r)
    ensures (r - x) % TwoTo64 == 0
  {
    var m := x % TwoTo64;
    if m >= TwoTo63 then m - TwoTo64 else m
  }

  /** The offset exactly as the source computes it, in Go's 64-bit `int`. It agrees
      with `Offset` whenever the product fits. */
  function OffsetAsWritten(page: int, size: int): (r: int)
    requires IsGoInt(page) && IsGoInt(size) && page >= 1 && size >= 1
    ensures IsGoInt(r)
    ensures (page - 1) * size < TwoTo63 ==> r == Offset(page, size)
  {
    WrapGoInt((page - 1) * size)
  }

  /** Page 2^61 + 1 with size 8 asks for the rows from position 2^64 on, but the
      product wraps to 0 and the first page is fetched instead of an empty one. */
  lemma OffsetWrapsToFirstPage(db: Database, q: Query)
    requires db.findFault.None? && q.order.None?
    requires 0 < |Select(db.rows, q.conditions)| <= TwoTo64
    ensures OffsetAsWritten(0x2000_0000_0000_0001, 8) == 0
    ensures StoreFind(db, q, Offset(0x2000_0000_0000_0001, 8), 8) == Ok([])
    ensures var wrapped := StoreFind(db, q, OffsetAsWritten(0x2000_0000_0000_0001, 8) as nat, 8);
              wrapped.Ok? && wrapped.value != [] && wrapped.value == Window(Select(db.rows, q.conditions), 0, 8)
  {
    assert Offset(0x2000_0000_0000_0001, 8) == TwoTo64;
    assert WrapGoInt(TwoTo64) == 0;
  }
}
