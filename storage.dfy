/** The relational database the event repository talks to, reduced to what the listing
    logic observes: a table of events, the WHERE conditions the repository can add, an
    ORDER BY clause given as text, OFFSET/LIMIT windows, and the errors a statement can
    end with. The outcome of I/O (a lost connection, a timeout) is not computed here: it is
    carried by the `Database` value as the fault each kind of statement ends with. */
module Storage {
  import opened Wrappers
  import opened Text
  import opened Ordering

  /** One row of the events table, with the columns the listing can filter or sort on.
      `date` holds the calendar-day part of the event's date column (what DATE(date)
      yields) and `time` the time-of-day value of the time column. */
  datatype Event = Event(
    id: nat,
    name: string,
    description: string,
    date: string,
    time: string,
    venueId: nat,
    createdAt: int)

  /** Errors a statement can end with. `Wrapped` is an error that carries another one
      as its cause, as Go errors built with %w do. */
  datatype DbError =
    | RecordNotFound
    | Failure(message: string)
    | Wrapped(context: string, cause: DbError)

  /** The error followed by its causes, outermost first: each wrapped error is followed
      by the error it wraps, and the chain ends at an error that wraps nothing. */
  function Causes(e: DbError): (r: seq<DbError>)
    ensures |r| >= 1 && r[0] == e
    ensures !r[|r| - 1].Wrapped?
    ensures forall i :: 0 <= i < |r| - 1 ==> r[i].Wrapped? && r[i + 1] == r[i].cause
  {
    match e
    case Wrapped(_, cause) => [e] + Causes(cause)
    case _ => [e]
  }

  /** errors.Is(e, gorm.ErrRecordNotFound): the not-found error is `e` or one of its causes. */
  function IsNotFound(e: DbError): (b: bool)
    ensures b <==> RecordNotFound in Causes(e)
  {
    match e
    case RecordNotFound => true
    case Failure(_) => false
    case Wrapped(_, cause) => IsNotFound(cause)
  }

  /** One WHERE condition of the listing query. */
  datatype Condition =
    | IdIs(id: nat)                         // id = ?
    | NameContains(text: string)            // LOWER(name) LIKE LOWER('%text%')
    | DescriptionContains(text: string)     // LOWER(description) LIKE LOWER('%text%')
    | DateIs(date: string)                  // DATE(date) = ?
    | TimeIs(time: string)                  // time = ?::time
    | VenueIs(venueId: nat)                 // venue_id = ?

  /** What one WHERE condition means for a row. The two LIKE conditions hold exactly when
      the lower-cased text occurs somewhere in the lower-cased column, so a column equal to
      the text up to case always matches and a column shorter than the text never does;
      the other conditions compare the column with the value. */
  function Holds(c: Condition, e: Event): (b: bool)
    ensures c.IdIs? ==> (b <==> e.id == c.id)
    ensures c.VenueIs? ==> (b <==> e.venueId == c.venueId)
    ensures c.DateIs? ==> (b <==> e.date == c.date)
    ensures c.TimeIs? ==> (b <==> e.time == c.time)
    ensures c.NameContains? ==> (b <==> exists i :: OccursAt(Lower(e.name), Lower(c.text), i))
    ensures c.NameContains? && Lower(c.text) == Lower(e.name) ==> b
    ensures c.NameContains? && |c.text| > |e.name| ==> !b
    ensures c.DescriptionContains? ==> (b <==> exists i :: OccursAt(Lower(e.description), Lower(c.text), i))
    ensures c.DescriptionContains? && Lower(c.text) == Lower(e.description) ==> b
    ensures c.DescriptionContains? && |c.text| > |e.description| ==> !b
  {
    match c
    case IdIs(id) => e.id == id
    case NameContains(text) =>
      ContainsItself(Lower(e.name));
      Contains(Lower(e.name), Lower(text))
    case DescriptionContains(text) =>
      ContainsItself(Lower(e.description));
      Contains(Lower(e.description), Lower(text))
    case DateIs(date) => e.date == date
    case TimeIs(time) => e.time == time
    case VenueIs(venueId) => e.venueId == venueId
  }

  /** The conditions are AND-composed: a row is selected when it meets all of them. */
  predicate Satisfies(conditions: seq<Condition>, e: Event) {
    forall c | c in conditions :: Holds(c, e)
  }

  /** Conditions joined into one list hold together exactly when each part holds. */
  lemma SatisfiesAppend(a: seq<Condition>, b: seq<Condition>)
    ensures forall e :: Satisfies(a + b, e) <==> Satisfies(a, e) && Satisfies(b, e)
  {
  }

  /** A single condition holds exactly when its list does. */
  lemma SatisfiesSingle(c: Condition)
    ensures forall e :: Satisfies([c], e) <==> Holds(c, e)
  {
    assert c in [c];
  }

  /** A query that has been built but not executed: its WHERE conditions and, when one
      was added, the text of its ORDER BY clause. */
  datatype Query = Query(conditions: seq<Condition>, order: Option<string>)

  /** The table together with the fault, if any, that a COUNT statement and a SELECT
      statement end with. */
  datatype Database = Database(
    rows: seq<Event>,
    countFault: Option<DbError>,
    findFault: Option<DbError>)

  /** The rows that meet every condition, in table order. */
  function Select(rows: seq<Event>, conditions: seq<Condition>): (r: seq<Event>)
    ensures |r| <= |rows|
    ensures forall e :: e in r <==> e in rows && Satisfies(conditions, e)
  {
    if rows == [] then []
    else (if Satisfies(conditions, rows[0]) then [rows[0]] else []) + Select(rows[1..], conditions)
  }

  /** Each selected row occurs in the result exactly as often as in the table, and a row
      that fails a condition does not occur at all: the count of a query is the number
      of matching rows. */
  lemma {:induction false} SelectCounts(rows: seq<Event>, conditions: seq<Condition>, e: Event)
    ensures multiset(Select(rows, conditions))[e]
         == if Satisfies(conditions, e) then multiset(rows)[e] else 0
  {
    if rows != [] {
      SelectCounts(rows[1..], conditions, e);
      assert rows == [rows[0]] + rows[1..];
    }
  }

  /** A query without conditions selects the whole table, in table order. */
  lemma {:induction false} SelectWithoutConditions(rows: seq<Event>)
    ensures Select(rows, []) == rows
  {
    if rows != [] {
      SelectWithoutConditions(rows[1..]);
      assert rows == [rows[0]] + rows[1..];
    }
  }

  // ---------------------------------------------------------------------------
  // ORDER BY

  /** The columns of the events table that an ORDER BY may name (after SQL folds an
      unquoted identifier to lower case). */
  const Columns: set<string> := {"id", "name", "description", "date", "time", "venue_id", "created_at"}

  function Codes(s: string): (r: seq<int>)
    ensures |r| == |s|
    ensures forall i :: 0 <= i < |s| ==> r[i] == s[i] as int
  {
    seq(|s|, i requires 0 <= i < |s| => s[i] as int)
  }

  /** The value of a column, as a key for the lexicographic order. */
  function Key(column: string, e: Event): seq<int>
    requires column in Columns
  {
    match column
    case "id" => [e.id]
    case "name" => Codes(e.name)
    case "description" => Codes(e.description)
    case "date" => Codes(e.date)
    case "time" => Codes(e.time)
    case "venue_id" => [e.venueId]
    case "created_at" => [e.createdAt]
  }

  /** `a` may be placed before `b` when sorting on `column`, ascending or descending. */
  predicate Precedes(column: string, desc: bool, a: Event, b: Event)
    requires column in Columns
  {
    if desc then LexLe(Key(column, b), Key(column, a)) else LexLe(Key(column, a), Key(column, b))
  }

  predicate Sorted(rows: seq<Event>, column: string, desc: bool)
    requires column in Columns
  {
    forall i, j :: 0 <= i < j < |rows| ==> Precedes(column, desc, rows[i], rows[j])
  }

  lemma PrecedesTotal(column: string, desc: bool, a: Event, b: Event)
    requires column in Columns
    ensures Precedes(column, desc, a, b) || Precedes(column, desc, b, a)
  {
    LexLeTotal(Key(column, a), Key(column, b));
  }

  lemma PrecedesTransitive(column: string, desc: bool, a: Event, b: Event, c: Event)
    requires column in Columns
    requires Precedes(column, desc, a, b) && Precedes(column, desc, b, c)
    ensures Precedes(column, desc, a, c)
  {
    if desc {
      LexLeTransitive(Key(column, c), Key(column, b), Key(column, a));
    } else {
      LexLeTransitive(Key(column, a), Key(column, b), Key(column, c));
    }
  }

  /** Puts `x` into `s` in front of the first row it may precede. */
  function Insert(x: Event, s: seq<Event>, column: string, desc: bool): (r: seq<Event>)
    requires column in Columns
    ensures multiset(r) == multiset(s) + multiset{x}
  {
    if s == [] then [x]
    else if Precedes(column, desc, x, s[0]) then [x] + s
    else
      assert s == [s[0]] + s[1..];
      [s[0]] + Insert(x, s[1..], column, desc)
  }

  /** Insertion sort on one column: the database's ORDER BY. Rows with equal keys keep
      their table order. */
  function SortBy(rows: seq<Event>, column: string, desc: bool): (r: seq<Event>)
    requires column in Columns
    ensures multiset(r) == multiset(rows)
  {
    if rows == [] then []
    else
      assert rows == [rows[0]] + rows[1..];
      Insert(rows[0], SortBy(rows[1..], column, desc), column, desc)
  }

  lemma {:induction false} InsertSorted(x: Event, s: seq<Event>, column: string, desc: bool)
    requires column in Columns
    requires Sorted(s, column, desc)
    ensures Sorted(Insert(x, s, column, desc), column, desc)
  {
    if s == [] {
    } else if Precedes(column, desc, x, s[0]) {
      forall j | 0 < j < |s|
        ensures Precedes(column, desc, x, s[j])
      {
        PrecedesTransitive(column, desc, x, s[0], s[j]);
      }
    } else {
      PrecedesTotal(column, desc, x, s[0]);
      var rest := Insert(x, s[1..], column, desc);
      InsertSorted(x, s[1..], column, desc);
      forall j | 0 <= j < |rest|
        ensures Precedes(column, desc, s[0], rest[j])
      {
        assert rest[j] in multiset(rest);
        if rest[j] != x {
          assert rest[j] in multiset(s[1..]);
          var k :| 0 <= k < |s[1..]| && s[1..][k] == rest[j];
          assert s[k + 1] == rest[j];
        }
      }
    }
  }

  /** Sorting yields a permutation of its input, ordered on the column. */
  lemma {:induction false} SortBySorted(rows: seq<Event>, column: string, desc: bool)
    requires column in Columns
    ensures Sorted(SortBy(rows, column, desc), column, desc)
    ensures multiset(SortBy(rows, column, desc)) == multiset(rows)
  {
    if rows != [] {
      SortBySorted(rows[1..], column, desc);
      InsertSorted(rows[0], SortBy(rows[1..], column, desc), column, desc);
    }
  }

  /** An ORDER BY clause read as a column and a direction. */
  datatype OrderBy = OrderBy(column: string, direction: string)

  /** Reads an ORDER BY clause: the column is the text before the first space, the
      direction the text after it. */
  function ParseOrder(clause: string): (r: Option<OrderBy>)
    ensures r.Some? ==> clause == r.value.column + " " + r.value.direction
    ensures r.Some? ==> ' ' !in r.value.column
    ensures r.None? ==> ' ' !in clause
  {
    match IndexOf(clause, ' ')
    case None => None
    case Some(k) =>
      assert clause == clause[..k] + " " + clause[k + 1..];
      Some(OrderBy(clause[..k], clause[k + 1..]))
  }

  /** Joining a column and a direction with one space and reading the clause back gives
      the same column and direction. */
  lemma ParseOrderJoin(column: string, direction: string)
    requires ' ' !in column
    ensures ParseOrder(column + " " + direction) == Some(OrderBy(column, direction))
  {
    IndexOfJoin(column, ' ', direction);
    var clause := column + " " + direction;
    assert clause[..|column|] == column;
    assert clause[|column| + 1..] == direction;
  }

  /** The sort direction a keyword names (SQL keywords are case-insensitive). */
  function Descending(direction: string): (r: Option<bool>)
    ensures r == Some(false) <==> Lower(direction) == "asc"
    ensures r == Some(true) <==> Lower(direction) == "desc"
  {
    var d := Lower(direction);
    if d == "asc" then Some(false) else if d == "desc" then Some(true) else None
  }

  /** Applies the ORDER BY clause, if any, to the selected rows. A clause that does not
      read as a known column and a direction makes the statement fail. */
  function Arrange(rows: seq<Event>, order: Option<string>): (r: Result<seq<Event>, DbError>)
    ensures r.Ok? ==> multiset(r.value) == multiset(rows)
    ensures order.None? ==> r == Ok(rows)
  {
    match order
    case None => Ok(rows)
    case Some(clause) =>
      match ParseOrder(clause)
      case None => Err(Failure("syntax error in ORDER BY"))
      case Some(OrderBy(column, direction)) =>
        if Lower(column) !in Columns then Err(Failure("unknown column in ORDER BY"))
        else match Descending(direction)
          case None => Err(Failure("unknown direction in ORDER BY"))
          case Some(desc) => Ok(SortBy(rows, Lower(column), desc))
  }

  // ---------------------------------------------------------------------------
  // Statements

  function Min(a: int, b: int): int {
    if a <= b then a else b
  }

  /** OFFSET `offset` LIMIT `limit`: at most `limit` rows, starting at position `offset`. */
  function Window(s: seq<Event>, offset: nat, limit: nat): (r: seq<Event>)
    ensures |r| <= limit
    ensures offset >= |s| ==> r == []
    ensures offset < |s| ==> |r| == Min(limit, |s| - offset)
    ensures forall i :: 0 <= i < |r| ==> r[i] == s[offset + i]
  {
    s[Min(offset, |s|)..Min(offset + limit, |s|)]
  }

  /** SELECT count(*) with the query's conditions. The ORDER BY clause plays no part:
      the count statement drops it. */
  function StoreCount(db: Database, q: Query): (r: Result<nat, DbError>)
    ensures db.countFault.Some? ==> r == Err(db.countFault.value)
    ensures db.countFault.None? ==> r.Ok? && r.value == |Select(db.rows, q.conditions)|
  {
    if db.countFault.Some? then Err(db.countFault.value)
    else Ok(|Select(db.rows, q.conditions)|)
  }

  /** SELECT with the query's conditions and order, then OFFSET/LIMIT: the rows from
      position `offset` on of the matching rows in the clause's order, at most `limit` of
      them. A clause the database cannot apply fails the statement. */
  function StoreFind(db: Database, q: Query, offset: nat, limit: nat): (r: Result<seq<Event>, DbError>)
    ensures db.findFault.Some? ==> r == Err(db.findFault.value)
    ensures r.Ok? ==> |r.value| <= limit
    ensures r.Ok? ==> forall e :: e in r.value ==> e in db.rows && Satisfies(q.conditions, e)
    ensures db.findFault.None? && Arrange(Select(db.rows, q.conditions), q.order).Ok? ==>
              r == Ok(Window(Arrange(Select(db.rows, q.conditions), q.order).value, offset, limit))
    ensures db.findFault.None? && Arrange(Select(db.rows, q.conditions), q.order).Err? ==>
              r == Err(Arrange(Select(db.rows, q.conditions), q.order).error)
    ensures db.findFault.None? && q.order.None? ==>
              r == Ok(Window(Select(db.rows, q.conditions), offset, limit))
  {
    if db.findFault.Some? then Err(db.findFault.value)
    else
      var matching := Select(db.rows, q.conditions);
      match Arrange(matching, q.order)
      case Err(e) => Err(e)
      case Ok(arranged) =>
        var page := Window(arranged, offset, limit);
        assert forall e :: e in page ==> e in multiset(arranged);
        Ok(page)
  }

  /** SELECT ... WHERE id = ? ORDER BY id LIMIT 1: the first row with that id, or the
      not-found error when there is none. */
  function StoreFirst(db: Database, id: nat): (r: Result<Event, DbError>)
    ensures db.findFault.Some? ==> r == Err(db.findFault.value)
    ensures db.findFault.None? ==>
              (r.Ok? <==> exists e :: e in db.rows && e.id == id) &&
              (r.Ok? ==> r.value in db.rows && r.value.id == id) &&
              (r.Err? ==> r.error == RecordNotFound)
  {
    if db.findFault.Some? then Err(db.findFault.value)
    else
      var matching := Select(db.rows, [IdIs(id)]);
      if matching == [] then
        assert forall e :: e in db.rows ==> !Satisfies([IdIs(id)], e) || e in matching;
        Err(RecordNotFound)
      else
        assert matching[0] in matching && IdIs(id) in [IdIs(id)];
        Ok(matching[0])
  }
}
