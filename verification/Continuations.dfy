/** Attempt continuations: a first-writer-wins store of sealed payloads, and the facade over it. */
module Continuations {
  import opened Wrappers
  import Json
  import Sorting

  /** A submitted input, as the JSON value it serialises to. */
  type Payload = Json.Json

  /** What an ideal AEAD makes of a message: it opens under its own secret and associated data only. */
  datatype Sealed = Sealed(secret: nat, nonce: nat, aad: string, message: Payload)

  /** A table row; rows are kept in rowid order. */
  datatype Row = Row(scope: string, id: string, binding: string, payload: Sealed, expiresAt: int)

  // --- sequences of rows --------------------------------------------------------

  function Filter(rows: seq<Row>, keep: Row -> bool): (r: seq<Row>)
    ensures |r| <= |rows|
  {
    if rows == [] then []
    else if keep(rows[0]) then [rows[0]] + Filter(rows[1..], keep)
    else Filter(rows[1..], keep)
  }

  lemma {:induction false} FilterMembers(rows: seq<Row>, keep: Row -> bool, x: Row)
    ensures x in Filter(rows, keep) <==> x in rows && keep(x)
  {
    if rows != [] {
      FilterMembers(rows[1..], keep, x);
      assert rows == [rows[0]] + rows[1..];
    }
  }

  lemma {:induction false} FilterConcat(a: seq<Row>, b: seq<Row>, keep: Row -> bool)
    ensures Filter(a + b, keep) == Filter(a, keep) + Filter(b, keep)
  {
    if a == [] {
      assert a + b == b;
    } else {
      assert (a + b)[1..] == a[1..] + b;
      FilterConcat(a[1..], b, keep);
    }
  }

  /** Filtering twice keeps what both keep. */
  lemma {:induction false} FilterAgain(rows: seq<Row>, first: Row -> bool, second: Row -> bool, both: Row -> bool)
    requires forall x :: x in rows ==> (both(x) <==> first(x) && second(x))
    ensures Filter(Filter(rows, first), second) == Filter(rows, both)
  {
    if rows != [] {
      assert rows[0] in rows;
      assert forall x :: x in rows[1..] ==> x in rows;
      FilterAgain(rows[1..], first, second, both);
      if first(rows[0]) {
        assert ([rows[0]] + Filter(rows[1..], first))[1..] == Filter(rows[1..], first);
      }
    }
  }

  /** `a` stands somewhere before `b`. */
  ghost predicate Precedes(rows: seq<Row>, a: Row, b: Row) {
    exists i, j :: 0 <= i < j < |rows| && rows[i] == a && rows[j] == b
  }

  lemma {:induction false} FilterKeepsOrder(rows: seq<Row>, keep: Row -> bool, a: Row, b: Row)
    requires Precedes(rows, a, b) && keep(a) && keep(b)
    ensures Precedes(Filter(rows, keep), a, b)
  {
    var i, j :| 0 <= i < j < |rows| && rows[i] == a && rows[j] == b;
    assert rows == rows[..j] + rows[j..];
    FilterConcat(rows[..j], rows[j..], keep);
    assert rows[..j][i] == a && rows[j..][0] == b;
    FilterMembers(rows[..j], keep, a);
    FilterMembers(rows[j..], keep, b);
    PrecedesAcross(Filter(rows[..j], keep), Filter(rows[j..], keep), a, b);
  }

  lemma PrecedesAcross(s: seq<Row>, t: seq<Row>, a: Row, b: Row)
    requires a in s && b in t
    ensures Precedes(s + t, a, b)
  {
    var i :| 0 <= i < |s| && s[i] == a;
    var j :| 0 <= j < |t| && t[j] == b;
    assert (s + t)[i] == a && (s + t)[|s| + j] == b;
  }

  /** The table's keys: (scope, id) is unique, and so is (scope, binding). */
  predicate Clash(a: Row, b: Row) {
    a.scope == b.scope && (a.id == b.id || a.binding == b.binding)
  }

  ghost predicate Unique(rows: seq<Row>) {
    forall i, j :: 0 <= i < j < |rows| ==> !Clash(rows[i], rows[j])
  }

  lemma {:induction false} FilterUnique(rows: seq<Row>, keep: Row -> bool)
    requires Unique(rows)
    ensures Unique(Filter(rows, keep))
  {
    if rows != [] {
      FilterUnique(rows[1..], keep);
      var tail := Filter(rows[1..], keep);
      forall j | 0 <= j < |tail| ensures !Clash(rows[0], tail[j]) {
        FilterMembers(rows[1..], keep, tail[j]);
        var k :| 0 <= k < |rows[1..]| && rows[1..][k] == tail[j];
        assert rows[k + 1] == tail[j];
      }
    }
  }

  lemma UniqueMembers(rows: seq<Row>, a: Row, b: Row)
    requires Unique(rows) && a in rows && b in rows && Clash(a, b)
    ensures a == b
  {
    var i :| 0 <= i < |rows| && rows[i] == a;
    var j :| 0 <= j < |rows| && rows[j] == b;
    assert Clash(b, a);
  }

  // --- the statements -----------------------------------------------------------

  const CLEANUP_LIMIT: nat := 100

  predicate Live(r: Row, now: int) {
    r.expiresAt > now
  }

  function HasExpired(now: int): Row -> bool {
    (r: Row) => !Live(r, now)
  }

  function Outside(rows: seq<Row>): Row -> bool {
    (r: Row) => r !in rows
  }

  function OwnRow(scope: string, id: string, now: int): Row -> bool {
    (r: Row) => r.scope == scope && r.id == id && Live(r, now)
  }

  function BoundRow(scope: string, binding: string, now: int): Row -> bool {
    (r: Row) => r.scope == scope && r.binding == binding && Live(r, now)
  }

  function LiveIn(scope: string, now: int): Row -> bool {
    (r: Row) => r.scope == scope && Live(r, now)
  }

  function NotNamed(scope: string, id: string): Row -> bool {
    (r: Row) => !(r.scope == scope && r.id == id)
  }

  predicate Earlier(a: Row, b: Row) {
    a.expiresAt <= b.expiresAt
  }

  function Expired(rows: seq<Row>, now: int): seq<Row> {
    Filter(rows, HasExpired(now))
  }

  /** The expired rows one cleanup removes: the longest expired, at most a hundred. */
  function Victims(rows: seq<Row>, now: int): seq<Row> {
    var sorted := Sorting.Sort(Earlier, Expired(rows, now));
    if |sorted| <= CLEANUP_LIMIT then sorted else sorted[..CLEANUP_LIMIT]
  }

  /** CLEANUP */
  function Cleanup(rows: seq<Row>, now: int): seq<Row> {
    Filter(rows, Outside(Victims(rows, now)))
  }

  predicate HasClash(rows: seq<Row>, row: Row) {
    exists i :: 0 <= i < |rows| && Clash(rows[i], row)
  }

  /** INSERT ... ON CONFLICT DO NOTHING: a new row gets a rowid above every other. */
  function InsertRow(rows: seq<Row>, row: Row): seq<Row> {
    if HasClash(rows, row) then rows else rows + [row]
  }

  function First(rows: seq<Row>): Option<Row> {
    if rows == [] then None else Some(rows[0])
  }

  /** GET */
  function GetRow(rows: seq<Row>, scope: string, id: string, now: int): Option<Row> {
    First(Filter(rows, OwnRow(scope, id, now)))
  }

  /** BY_BINDING: the identity's own row before a row that holds the binding. */
  function ByBinding(rows: seq<Row>, scope: string, binding: string, id: string, now: int): Option<Row> {
    match GetRow(rows, scope, id, now)
    case Some(r) => Some(r)
    case None => First(Filter(rows, BoundRow(scope, binding, now)))
  }

  /** LIST */
  function ListRows(rows: seq<Row>, scope: string, now: int): seq<Row> {
    Filter(rows, LiveIn(scope, now))
  }

  /** RELEASE */
  function ReleaseRow(rows: seq<Row>, scope: string, id: string): seq<Row> {
    Filter(rows, NotNamed(scope, id))
  }

  /** A statement that changes the table. Each one is atomic; a call that makes several is not. */
  datatype Statement =
    | CleaningUp(now: int)
    | Inserting(row: Row)
    | Releasing(scope: string, id: string)

  function Step(rows: seq<Row>, s: Statement): seq<Row> {
    match s
    case CleaningUp(now) => Cleanup(rows, now)
    case Inserting(row) => InsertRow(rows, row)
    case Releasing(scope, id) => ReleaseRow(rows, scope, id)
  }

  function Run(rows: seq<Row>, statements: seq<Statement>): seq<Row> {
    if statements == [] then rows
    else Step(Run(rows, statements[..|statements| - 1]), statements[|statements| - 1])
  }

  /** The table after a retain that others interrupt before its insert, and again before its read-back. */
  function RowsAfterRetain(rows: seq<Row>, row: Row, now: int, first: seq<Statement>, second: seq<Statement>): seq<Row> {
    Run(InsertRow(Run(Cleanup(rows, now), first), row), second)
  }

  /** The table, updated one statement at a time. */
  class ContinuationStorage {
    var rows: seq<Row>

    constructor ()
      ensures rows == []
    {
      rows := [];
    }

    /** What other connections complete while a call waits. */
    method LetOthersRun(statements: seq<Statement>)
      modifies this
      ensures rows == Run(old(rows), statements)
    {
      ghost var before := rows;
      for i := 0 to |statements|
        invariant rows == Run(before, statements[..i])
      {
        assert statements[..i + 1][..i] == statements[..i];
        match statements[i] {
          case CleaningUp(now) => rows := Cleanup(rows, now);
          case Inserting(row) => rows := InsertRow(rows, row);
          case Releasing(scope, id) => rows := ReleaseRow(rows, scope, id);
        }
      }
      assert statements[..|statements|] == statements;
    }

    method Retain(row: Row, now: int, first: seq<Statement>, second: seq<Statement>) returns (stored: Option<Row>)
      modifies this
      ensures rows == RowsAfterRetain(old(rows), row, now, first, second)
      ensures stored == ByBinding(rows, row.scope, row.binding, row.id, now)
    {
      rows := Cleanup(rows, now);
      LetOthersRun(first);
      rows := InsertRow(rows, row);
      LetOthersRun(second);
      stored := ByBinding(rows, row.scope, row.binding, row.id, now);
    }

    method Get(scope: string, id: string, now: int) returns (stored: Option<Row>)
      ensures stored == GetRow(rows, scope, id, now)
    {
      stored := GetRow(rows, scope, id, now);
    }

    method List(scope: string, now: int) returns (stored: seq<Row>)
      ensures stored == ListRows(rows, scope, now)
    {
      stored := ListRows(rows, scope, now);
    }

    method Release(scope: string, id: string)
      modifies this
      ensures rows == ReleaseRow(old(rows), scope, id)
    {
      rows := ReleaseRow(rows, scope, id);
    }
  }

  // --- the facade ---------------------------------------------------------------

  /** One browser session's continuations for one flow and subject. */
  datatype Scope = Scope(key: string, expiresAt: int)

  datatype Retention = Retained | Conflict(original: Payload) | Bound(holder: Payload)

  datatype Failure = Unavailable

  /** Associated data: binds a sealed payload to its scope and identity. */
  function Aad(key: string, id: string): string {
    "ghinvite/attempt-continuation/v1/" + (key + (['/'] + id))
  }

  function Seal(secret: nat, nonce: nat, key: string, id: string, payload: Payload): Sealed {
    Sealed(secret, nonce, Aad(key, id), payload)
  }

  /** Opening a stored row in a scope. */
  function Open(secret: nat, key: string, stored: Row): Result<Payload, Failure> {
    if stored.payload.secret == secret && stored.payload.aad == Aad(key, stored.id)
    then Ok(stored.payload.message) else Err(Unavailable)
  }

  function OpenAll(secret: nat, key: string, stored: seq<Row>): Result<seq<Payload>, Failure> {
    if stored == [] then Ok([])
    else
      match Open(secret, key, stored[0])
      case Err(e) => Err(e)
      case Ok(p) =>
        match OpenAll(secret, key, stored[1..])
        case Err(e) => Err(e)
        case Ok(ps) => Ok([p] + ps)
  }

  /**
   * One call of retain, at clock reading `now`, and what other connections complete in the middle of it:
   * `first` between its cleanup and its insert, `second` between its insert and its read-back.
   */
  datatype RetainCall = RetainCall(
    scope: Scope, id: string, binding: Option<string>, payload: Payload, nonce: nat, now: int,
    first: seq<Statement>, second: seq<Statement>)

  /** The row a retain inserts. */
  function RowOf(secret: nat, c: RetainCall): Row {
    Row(c.scope.key, c.id, if c.binding.Some? then c.binding.value else c.id,
        Seal(secret, c.nonce, c.scope.key, c.id, c.payload), c.scope.expiresAt)
  }

  function AtInsert(rows: seq<Row>, c: RetainCall): seq<Row> {
    Run(Cleanup(rows, c.now), c.first)
  }

  function AtReadBack(secret: nat, rows: seq<Row>, c: RetainCall): seq<Row> {
    RowsAfterRetain(rows, RowOf(secret, c), c.now, c.first, c.second)
  }

  /** What a retain finds, given the row read back. */
  function Found(secret: nat, c: RetainCall, stored: Option<Row>): Result<Retention, Failure> {
    match stored
    case None => Err(Unavailable)
    case Some(row) =>
      match Open(secret, c.scope.key, row)
      case Err(e) => Err(e)
      case Ok(original) =>
        if row.id != c.id then Ok(Bound(original))
        else if original != c.payload then Ok(Conflict(original))
        else Ok(Retained)
  }

  function RetainOutcome(secret: nat, rows: seq<Row>, c: RetainCall): Result<Retention, Failure> {
    Found(secret, c, ByBinding(AtReadBack(secret, rows, c), c.scope.key, RowOf(secret, c).binding, c.id, c.now))
  }

  function LoadOutcome(secret: nat, rows: seq<Row>, scope: Scope, id: string, now: int): Result<Option<Payload>, Failure> {
    match GetRow(rows, scope.key, id, now)
    case None => Ok(None)
    case Some(row) =>
      match Open(secret, scope.key, row)
      case Err(e) => Err(e)
      case Ok(p) => Ok(Some(p))
  }

  function ListOutcome(secret: nat, rows: seq<Row>, scope: Scope, now: int): Result<seq<Payload>, Failure> {
    OpenAll(secret, scope.key, ListRows(rows, scope.key, now))
  }

  function LatestOutcome(secret: nat, rows: seq<Row>, scope: Scope, now: int): Result<Option<Payload>, Failure> {
    match ListOutcome(secret, rows, scope, now)
    case Err(e) => Err(e)
    case Ok(ps) => Ok(if ps == [] then None else Some(ps[|ps| - 1]))
  }

  // --- what reading finds -------------------------------------------------------

  predicate IsLive(r: Row, scope: string, id: string, now: int) {
    r.scope == scope && r.id == id && Live(r, now)
  }

  lemma GetFound(rows: seq<Row>, scope: string, id: string, now: int)
    ensures GetRow(rows, scope, id, now).Some? ==>
      var r := GetRow(rows, scope, id, now).value; r in rows && r.scope == scope && r.id == id && Live(r, now)
    ensures GetRow(rows, scope, id, now).None? ==>
      forall r :: r in rows && r.scope == scope && r.id == id ==> !Live(r, now)
  {
    var own := Filter(rows, OwnRow(scope, id, now));
    if own != [] { FilterMembers(rows, OwnRow(scope, id, now), own[0]); }
    forall r | r in rows && r.scope == scope && r.id == id && Live(r, now) ensures r in own {
      FilterMembers(rows, OwnRow(scope, id, now), r);
    }
  }

  /** The last row a filter keeps: nothing kept comes after it. */
  lemma {:induction false} LastKept(rows: seq<Row>, keep: Row -> bool) returns (i: nat)
    requires Filter(rows, keep) != []
    ensures i < |rows| && keep(rows[i]) && rows[i] == Filter(rows, keep)[|Filter(rows, keep)| - 1]
    ensures forall j :: i < j < |rows| ==> !keep(rows[j])
  {
    var tail := Filter(rows[1..], keep);
    if tail != [] {
      i := LastKept(rows[1..], keep);
      i := i + 1;
    } else {
      i := 0;
      forall j | 0 < j < |rows| ensures !keep(rows[j]) {
        FilterMembers(rows[1..], keep, rows[1..][j - 1]);
      }
    }
  }

  lemma {:induction false} OpenedInOrder(secret: nat, key: string, stored: seq<Row>)
    ensures OpenAll(secret, key, stored).Ok? ==>
      var ps := OpenAll(secret, key, stored).value;
      |ps| == |stored| && forall i :: 0 <= i < |ps| ==> Open(secret, key, stored[i]) == Ok(ps[i])
    ensures OpenAll(secret, key, stored).Err? ==> exists x :: x in stored && Open(secret, key, x).Err?
  {
    if stored != [] {
      OpenedInOrder(secret, key, stored[1..]);
      assert stored == [stored[0]] + stored[1..];
    }
  }

  /** Row `i` is the last live row of the scope, and opens to `p`. */
  ghost predicate LatestAt(secret: nat, rows: seq<Row>, scope: Scope, now: int, i: nat, p: Payload)
    requires i < |rows|
  {
    && LiveIn(scope.key, now)(rows[i]) && Open(secret, scope.key, rows[i]) == Ok(p)
    && forall j :: i < j < |rows| ==> !LiveIn(scope.key, now)(rows[j])
  }

  lemma LatestFound(secret: nat, rows: seq<Row>, scope: Scope, now: int)
    ensures var r := LatestOutcome(secret, rows, scope, now);
      && (r == Ok(None) <==> forall x :: x in rows ==> !LiveIn(scope.key, now)(x))
      && (r.Ok? && r.value.Some? ==> exists i :: 0 <= i < |rows| && LatestAt(secret, rows, scope, now, i, r.value.value))
      && (r.Err? ==> exists x :: x in rows && LiveIn(scope.key, now)(x) && Open(secret, scope.key, x).Err?)
  {
    var keep := LiveIn(scope.key, now);
    var stored := ListRows(rows, scope.key, now);
    OpenedInOrder(secret, scope.key, stored);
    forall x ensures x in stored <==> x in rows && keep(x) {
      FilterMembers(rows, keep, x);
    }
    if stored != [] {
      assert stored[0] in stored;
      var i := LastKept(rows, keep);
      if LatestOutcome(secret, rows, scope, now).Ok? {
        assert LatestAt(secret, rows, scope, now, i, LatestOutcome(secret, rows, scope, now).value.value);
      }
    }
  }

  class AttemptContinuations {
    const storage: ContinuationStorage
    const secret: nat

    constructor (storage: ContinuationStorage, secret: nat)
      ensures this.storage == storage && this.secret == secret
    {
      this.storage := storage;
      this.secret := secret;
    }

    method Retain(c: RetainCall) returns (r: Result<Retention, Failure>)
      modifies storage
      ensures storage.rows == AtReadBack(secret, old(storage.rows), c)
      ensures r == RetainOutcome(secret, old(storage.rows), c)
    {
      var row := RowOf(secret, c);
      var stored := storage.Retain(row, c.now, c.first, c.second);
      if stored.None? {
        return Err(Unavailable);
      }
      var boundElsewhere := stored.value.id != c.id;
      var original := Open(secret, c.scope.key, stored.value);
      if original.Err? {
        return Err(original.error);
      }
      if boundElsewhere {
        r := Ok(Bound(original.value));
      } else if original.value != c.payload {
        r := Ok(Conflict(original.value));
      } else {
        r := Ok(Retained);
      }
    }

    method Load(scope: Scope, id: string, now: int) returns (r: Result<Option<Payload>, Failure>)
      ensures r == LoadOutcome(secret, storage.rows, scope, id, now)
      ensures r == Ok(None) <==> forall x :: x in storage.rows ==> !IsLive(x, scope.key, id, now)
      ensures r.Ok? && r.value.Some? ==>
        exists x :: x in storage.rows && IsLive(x, scope.key, id, now) && Open(secret, scope.key, x) == Ok(r.value.value)
      ensures r.Err? ==>
        exists x :: x in storage.rows && IsLive(x, scope.key, id, now) && Open(secret, scope.key, x).Err?
    {
      GetFound(storage.rows, scope.key, id, now);
      var stored := storage.Get(scope.key, id, now);
      if stored.None? {
        return Ok(None);
      }
      var payload := Open(secret, scope.key, stored.value);
      r := if payload.Ok? then Ok(Some(payload.value)) else Err(payload.error);
    }

    method List(scope: Scope, now: int) returns (r: Result<seq<Payload>, Failure>)
      ensures r == ListOutcome(secret, storage.rows, scope, now)
    {
      var stored := storage.List(scope.key, now);
      r := OpenAll(secret, scope.key, stored);
    }

    method Latest(scope: Scope, now: int) returns (r: Result<Option<Payload>, Failure>)
      ensures r == LatestOutcome(secret, storage.rows, scope, now)
      ensures r == Ok(None) <==> forall x :: x in storage.rows ==> !LiveIn(scope.key, now)(x)
      ensures r.Ok? && r.value.Some? ==>
        exists i :: 0 <= i < |storage.rows| && LatestAt(secret, storage.rows, scope, now, i, r.value.value)
      ensures r.Err? ==>
        exists x :: x in storage.rows && LiveIn(scope.key, now)(x) && Open(secret, scope.key, x).Err?
    {
      LatestFound(secret, storage.rows, scope, now);
      var all := List(scope, now);
      if all.Err? {
        return Err(all.error);
      }
      r := Ok(if all.value == [] then None else Some(all.value[|all.value| - 1]));
    }

    method Release(scope: Scope, id: string)
      modifies storage
      ensures storage.rows == ReleaseRow(old(storage.rows), scope.key, id)
      ensures forall x :: x in storage.rows <==> x in old(storage.rows) && !(x.scope == scope.key && x.id == id)
    {
      forall x ensures x in ReleaseRow(storage.rows, scope.key, id) <==>
                       x in storage.rows && !(x.scope == scope.key && x.id == id)
      {
        FilterMembers(storage.rows, NotNamed(scope.key, id), x);
      }
      storage.Release(scope.key, id);
    }
  }
}
