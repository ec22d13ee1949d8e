/**
 The audit log: each row stores the hash of its own event and the hash of the row before it.
 The hash function is a parameter; where detection depends on it, it is required to be injective.
 */
module AuditChain {
  import opened Prelude

  /** The hashed fields of an event. */
  datatype Payload = Payload(
    eventType: string,
    timestamp: string,
    userId: Option<string>,
    sourceIp: Option<string>,
    outcome: string,
    details: string,
    sessionId: Option<string>)

  type Hash = string

  type Hasher = Payload -> Hash

  datatype Row = Row(id: int, payload: Payload, prevHash: Hash, eventHash: Hash)

  const GENESIS: Hash := "0000000000000000000000000000000000000000000000000000000000000000"

  ghost predicate Injective(hash: Hasher) {
    forall p, q :: hash(p) == hash(q) ==> p == q
  }

  // ---------------------------------------------------------------- appending

  function LastHash(rows: seq<Row>): Hash {
    if rows == [] then GENESIS else rows[|rows| - 1].eventHash
  }

  function Append(rows: seq<Row>, id: int, payload: Payload, hash: Hasher): seq<Row> {
    rows + [Row(id, payload, LastHash(rows), hash(payload))]
  }

  class AuditLog {
    /** The table in id order. */
    var rows: seq<Row>

    constructor ()
      ensures rows == []
    {
      rows := [];
    }

    /** The row id is the database's choice: any id above those present. */
    method LogEvent(payload: Payload, id: int, hash: Hasher)
      requires rows != [] ==> rows[|rows| - 1].id < id
      modifies this
      ensures rows == Append(old(rows), id, payload, hash)
      ensures rows != [] && rows[|rows| - 1].id == id && rows[|rows| - 1].payload == payload
      ensures rows[..|rows| - 1] == old(rows)
    {
      var prevHash := if rows == [] then GENESIS else rows[|rows| - 1].eventHash;
      var row := Row(id, payload, prevHash, hash(payload));
      rows := rows + [row];
    }
  }

  // ---------------------------------------------------------------- verifying

  datatype Fault = PrevMismatch(expected: Hash) | NotAnchored | HashMismatch(computed: Hash)

  datatype ChainError = ChainError(id: int, fault: Fault)

  datatype Status = Verified | Broken

  datatype Verification = Verification(status: Status, scanned: nat, errors: seq<ChainError>)

  /** The faults of one row, given the hash of the row scanned before it. */
  function RowErrors(row: Row, before: Option<Hash>, firstId: Option<int>, hash: Hasher): seq<ChainError> {
    (match before
     case Some(expected) => if row.prevHash != expected then [ChainError(row.id, PrevMismatch(expected))] else []
     case None =>
       if row.prevHash != GENESIS && firstId != Some(row.id) then [ChainError(row.id, NotAnchored)] else []) +
    (if hash(row.payload) != row.eventHash then [ChainError(row.id, HashMismatch(hash(row.payload)))] else [])
  }

  function Errors(rows: seq<Row>, firstId: Option<int>, hash: Hasher): seq<ChainError> {
    if rows == [] then [] else
      var n := |rows| - 1;
      Errors(rows[..n], firstId, hash) +
      RowErrors(rows[n], if n == 0 then None else Some(rows[n - 1].eventHash), firstId, hash)
  }

  method VerifyEvents(rows: seq<Row>, firstId: Option<int>, hash: Hasher) returns (v: Verification)
    ensures v.scanned == |rows| && v.errors == Errors(rows, firstId, hash)
    ensures v.status == if v.errors == [] then Verified else Broken
  {
    hide Errors;
    var scanned: nat, errors: seq<ChainError> := 0, [];
    NoRows(firstId, hash);
    var before: Option<Hash> := None;
    for i := 0 to |rows|
      invariant scanned == i
      invariant before == if i == 0 then None else Some(rows[i - 1].eventHash)
      invariant errors == Errors(rows[..i], firstId, hash)
    {
      var row := rows[i];
      ErrorsStep(rows, i, firstId, hash);
      ghost var soFar := errors;
      scanned := scanned + 1;
      if before.Some? {
        if row.prevHash != before.value {
          errors := errors + [ChainError(row.id, PrevMismatch(before.value))];
        }
      } else if row.prevHash != GENESIS && firstId != Some(row.id) {
        errors := errors + [ChainError(row.id, NotAnchored)];
      }
      var computed := hash(row.payload);
      if computed != row.eventHash {
        errors := errors + [ChainError(row.id, HashMismatch(computed))];
      }
      assert errors == soFar + RowErrors(row, before, firstId, hash);
      before := Some(row.eventHash);
    }
    assert rows[..|rows|] == rows;
    v := Verification(if errors == [] then Verified else Broken, scanned, errors);
  }

  lemma NoRows(firstId: Option<int>, hash: Hasher)
    ensures Errors([], firstId, hash) == []
  {
  }

  lemma ErrorsStep(rows: seq<Row>, i: nat, firstId: Option<int>, hash: Hasher)
    requires i < |rows|
    ensures Errors(rows[..i + 1], firstId, hash) ==
            Errors(rows[..i], firstId, hash) +
            RowErrors(rows[i], if i == 0 then None else Some(rows[i - 1].eventHash), firstId, hash)
  {
    hide RowErrors;
    assert rows[..i + 1][..i] == rows[..i];
  }

  // ---------------------------------------------------------------- what a clean scan means

  ghost predicate HashesMatch(rows: seq<Row>, hash: Hasher) {
    forall k | 0 <= k < |rows| :: hash(rows[k].payload) == rows[k].eventHash
  }

  ghost predicate Linked(rows: seq<Row>) {
    forall k | 0 < k < |rows| :: rows[k].prevHash == rows[k - 1].eventHash
  }

  ghost predicate Anchored(rows: seq<Row>, firstId: Option<int>) {
    rows == [] || rows[0].prevHash == GENESIS || firstId == Some(rows[0].id)
  }

  ghost predicate Intact(rows: seq<Row>, hash: Hasher) {
    HashesMatch(rows, hash) && Linked(rows)
  }

  /** A scan has no errors exactly when every hash is its event's, every link holds, and the first row is anchored. */
  lemma {:induction false} CleanExact(rows: seq<Row>, firstId: Option<int>, hash: Hasher)
    ensures Errors(rows, firstId, hash) == [] <==> Intact(rows, hash) && Anchored(rows, firstId)
  {
    if rows != [] {
      var n := |rows| - 1;
      CleanExact(rows[..n], firstId, hash);
    }
  }

  /** What an unfiltered scan passes as the first id: the least id of the table. */
  function FirstId(rows: seq<Row>): Option<int> {
    if rows == [] then None else Some(rows[0].id)
  }

  // ---------------------------------------------------------------- honest runs

  /** The log appends; removing the oldest rows is up to whoever keeps the database. */
  datatype Op = Log(id: int, payload: Payload) | Prune(n: nat)

  function Play(rows: seq<Row>, ops: seq<Op>, hash: Hasher): seq<Row>
    decreases |ops|
  {
    if ops == [] then rows else
      var next := match ops[0]
                  case Log(id, payload) => Append(rows, id, payload, hash)
                  case Prune(n) => if n <= |rows| then rows[n..] else [];
      Play(next, ops[1..], hash)
  }

  lemma AppendIntact(rows: seq<Row>, id: int, payload: Payload, hash: Hasher)
    requires Intact(rows, hash)
    ensures Intact(Append(rows, id, payload, hash), hash)
  {
    var all := Append(rows, id, payload, hash);
    assert all[..|rows|] == rows;
  }

  lemma SliceIntact(rows: seq<Row>, a: nat, b: nat, hash: Hasher)
    requires Intact(rows, hash) && a <= b <= |rows|
    ensures Intact(rows[a..b], hash)
  {
    var part := rows[a..b];
    forall k | 0 <= k < |part| ensures hash(part[k].payload) == part[k].eventHash {
      assert part[k] == rows[a + k];
    }
    forall k | 0 < k < |part| ensures part[k].prevHash == part[k - 1].eventHash {
      assert part[k] == rows[a + k] && part[k - 1] == rows[a + k - 1];
      assert rows[a + k].prevHash == rows[a + k - 1].eventHash;
    }
  }

  lemma {:induction false} PlayIntact(rows: seq<Row>, ops: seq<Op>, hash: Hasher)
    requires Intact(rows, hash)
    ensures Intact(Play(rows, ops, hash), hash)
    decreases |ops|
  {
    hide Intact, Append;
    if ops != [] {
      match ops[0] {
        case Log(id, payload) =>
          AppendIntact(rows, id, payload, hash);
          PlayIntact(Append(rows, id, payload, hash), ops[1..], hash);
        case Prune(n) =>
          var m := if n <= |rows| then n else |rows|;
          SliceIntact(rows, m, |rows|, hash);
          assert rows[m..] == rows[m..|rows|] && rows[|rows|..] == [];
          PlayIntact(rows[m..], ops[1..], hash);
      }
    }
  }

  /** Any run of appends, with any oldest rows removed in between, leaves a log that verifies. */
  lemma HonestLogVerifies(ops: seq<Op>, hash: Hasher)
    ensures var rows := Play([], ops, hash);
            Errors(rows, FirstId(rows), hash) == []
  {
    hide Errors;
    PlayIntact([], ops, hash);
    var rows := Play([], ops, hash);
    CleanExact(rows, FirstId(rows), hash);
  }

  function Logged(ops: seq<Op>): seq<(int, Payload)> {
    if ops == [] then []
    else (match ops[0] case Log(id, payload) => [(id, payload)] case Prune(_) => []) + Logged(ops[1..])
  }

  function Events(rows: seq<Row>): seq<(int, Payload)> {
    seq(|rows|, k requires 0 <= k < |rows| => (rows[k].id, rows[k].payload))
  }

  predicate IsSuffix<T(==)>(s: seq<T>, t: seq<T>) {
    |s| <= |t| && s == t[|t| - |s|..]
  }

  /** The log holds the latest events that were logged, in their order and as they were. */
  lemma LogKeepsEvents(ops: seq<Op>, hash: Hasher)
    ensures IsSuffix(Events(Play([], ops, hash)), Logged(ops))
  {
    PlayKeepsEvents([], ops, hash);
    assert Events([]) + Logged(ops) == Logged(ops);
  }

  lemma {:induction false} PlayKeepsEvents(rows: seq<Row>, ops: seq<Op>, hash: Hasher)
    ensures IsSuffix(Events(Play(rows, ops, hash)), Events(rows) + Logged(ops))
    decreases |ops|
  {
    hide Events, IsSuffix;
    if ops == [] {
      assert Events(rows) + Logged(ops) == Events(rows);
      WholeIsSuffix(Events(rows));
    } else {
      var rest := Logged(ops[1..]);
      match ops[0] {
        case Log(id, payload) =>
          var next := Append(rows, id, payload, hash);
          PlayKeepsEvents(next, ops[1..], hash);
          EventsAppend(rows, id, payload, hash);
          Assoc(Events(rows), [(id, payload)], rest);
        case Prune(n) =>
          var m := if n <= |rows| then n else |rows|;
          assert rows[|rows|..] == [];
          PlayKeepsEvents(rows[m..], ops[1..], hash);
          EventsDrop(rows, m);
          assert [] + rest == rest;
          SuffixLater(Events(Play(rows, ops, hash)), Events(rows), m, rest);
      }
    }
  }

  lemma WholeIsSuffix<T>(s: seq<T>)
    ensures IsSuffix(s, s)
  {
  }

  lemma EventsAppend(rows: seq<Row>, id: int, payload: Payload, hash: Hasher)
    ensures Events(Append(rows, id, payload, hash)) == Events(rows) + [(id, payload)]
  {
  }

  lemma EventsDrop(rows: seq<Row>, m: nat)
    requires m <= |rows|
    ensures m <= |Events(rows)| && Events(rows[m..]) == Events(rows)[m..]
  {
  }

  lemma SuffixLater<T>(s: seq<T>, front: seq<T>, m: nat, rest: seq<T>)
    requires m <= |front| && IsSuffix(s, front[m..] + rest)
    ensures IsSuffix(s, front + rest)
  {
    assert front + rest == front[..m] + (front[m..] + rest);
  }

  // ---------------------------------------------------------------- scans with a time filter

  /** Strings compare by their characters, and a prefix comes first. */
  predicate AtMost(a: string, b: string)
    decreases |a|
  {
    a == [] || (b != [] && (a[0] < b[0] || (a[0] == b[0] && AtMost(a[1..], b[1..]))))
  }

  predicate Selected(row: Row, from: Option<string>, to: Option<string>) {
    && (from.Some? ==> AtMost(from.value, row.payload.timestamp))
    && (to.Some? ==> AtMost(row.payload.timestamp, to.value))
  }

  /** The places of the rows that a filter selects, in id order. */
  function SelectedAt(rows: seq<Row>, from: Option<string>, to: Option<string>): (at: seq<nat>)
    ensures Increasing(at, |rows|)
    ensures forall k | 0 <= k < |rows| :: k in at <==> Selected(rows[k], from, to)
  {
    if rows == [] then [] else
      var n := |rows| - 1;
      var before := SelectedAt(rows[..n], from, to);
      assert forall k | 0 <= k < n :: rows[..n][k] == rows[k];
      if Selected(rows[n], from, to) then before + [n] else before
  }

  predicate Increasing(at: seq<nat>, bound: nat) {
    && (forall k | 0 <= k < |at| :: at[k] < bound)
    && (forall j, k | 0 <= j < k < |at| :: at[j] < at[k])
  }

  function Pick(rows: seq<Row>, at: seq<nat>): seq<Row>
    requires forall k | 0 <= k < |at| :: at[k] < |rows|
  {
    seq(|at|, k requires 0 <= k < |at| => rows[at[k]])
  }

  /** The row before the one at `at[k]` has the hash of the row kept before it. */
  predicate GapCloses(rows: seq<Row>, at: seq<nat>, k: nat)
    requires Increasing(at, |rows|) && 0 < k < |at|
  {
    assert at[k - 1] < at[k];
    rows[at[k] - 1].eventHash == rows[at[k - 1]].eventHash
  }

  /** The first kept row is the table's first or starts at a genesis link, and every gap closes on an equal hash. */
  ghost predicate GapsClose(rows: seq<Row>, at: seq<nat>)
    requires Increasing(at, |rows|)
  {
    && (at != [] ==> at[0] == 0 || rows[at[0]].prevHash == GENESIS)
    && (forall k | 0 < k < |at| :: GapCloses(rows, at, k))
  }

  ghost predicate RisingIds(rows: seq<Row>) {
    forall i, j | 0 <= i < j < |rows| :: rows[i].id < rows[j].id
  }

  lemma PickLink(rows: seq<Row>, at: seq<nat>, k: nat)
    requires Linked(rows) && Increasing(at, |rows|) && 0 < k < |at|
    ensures rows[at[k]].prevHash == rows[at[k - 1]].eventHash <==> GapCloses(rows, at, k)
  {
    assert at[k - 1] < at[k] && rows[at[k]].prevHash == rows[at[k] - 1].eventHash;
  }

  lemma PickLinked(rows: seq<Row>, at: seq<nat>)
    requires Linked(rows) && Increasing(at, |rows|)
    ensures Linked(Pick(rows, at)) <==> forall k | 0 < k < |at| :: GapCloses(rows, at, k)
  {
    hide GapCloses;
    var part := Pick(rows, at);
    if Linked(part) {
      forall k | 0 < k < |at| ensures GapCloses(rows, at, k) {
        PickLink(rows, at, k);
        assert part[k].prevHash == part[k - 1].eventHash;
      }
    }
    if forall k | 0 < k < |at| :: GapCloses(rows, at, k) {
      forall k | 0 < k < |part| ensures part[k].prevHash == part[k - 1].eventHash {
        PickLink(rows, at, k);
        assert GapCloses(rows, at, k);
      }
    }
  }

  lemma PickHashes(rows: seq<Row>, at: seq<nat>, hash: Hasher)
    requires HashesMatch(rows, hash) && Increasing(at, |rows|)
    ensures HashesMatch(Pick(rows, at), hash)
  {
    var part := Pick(rows, at);
    forall k | 0 <= k < |part| ensures hash(part[k].payload) == part[k].eventHash {
      assert part[k] == rows[at[k]];
    }
  }

  /** A scan of any of the rows of an intact log, in id order, is clean exactly when its gaps close. */
  lemma PickedScanExact(rows: seq<Row>, at: seq<nat>, hash: Hasher)
    requires Intact(rows, hash) && RisingIds(rows) && Increasing(at, |rows|)
    ensures Errors(Pick(rows, at), FirstId(rows), hash) == [] <==> GapsClose(rows, at)
  {
    hide Errors, HashesMatch, Linked, GapCloses;
    CleanExact(Pick(rows, at), FirstId(rows), hash);
    PickHashes(rows, at, hash);
    PickLinked(rows, at);
  }

  /**
   A scan with a time filter of an intact log. Time stamps are taken before a row is stored, so
   they need not follow the ids, and a filter can leave out inner rows. The scan is clean exactly
   when the gaps it leaves close.
   */
  lemma FilteredScanExact(rows: seq<Row>, from: Option<string>, to: Option<string>, hash: Hasher)
    requires Intact(rows, hash) && RisingIds(rows)
    ensures Errors(Pick(rows, SelectedAt(rows, from, to)), FirstId(rows), hash) == [] <==>
            GapsClose(rows, SelectedAt(rows, from, to))
  {
    hide Errors, Intact, GapsClose;
    PickedScanExact(rows, SelectedAt(rows, from, to), hash);
  }

  /** Without equal hashes, only rows that follow each other close their gaps. */
  lemma GapsCloseDistinct(rows: seq<Row>, at: seq<nat>)
    requires Increasing(at, |rows|)
    requires forall i, j | 0 <= i < j < |rows| :: rows[i].eventHash != rows[j].eventHash
    ensures GapsClose(rows, at) <==>
              && (at != [] ==> at[0] == 0 || rows[at[0]].prevHash == GENESIS)
              && (forall k | 0 < k < |at| :: at[k] == at[k - 1] + 1)
  {
    forall k | 0 < k < |at| ensures GapCloses(rows, at, k) <==> at[k] == at[k - 1] + 1 {
      assert at[k - 1] < at[k];
      assert at[k - 1] < at[k] - 1 ==> rows[at[k - 1]].eventHash != rows[at[k] - 1].eventHash;
    }
  }

  function At(time: string): Payload {
    Payload("login", time, None, None, "success", "", None)
  }

  lemma Compared()
    ensures AtMost("1", "2") && !AtMost("2", "1") && AtMost("2", "2") && !AtMost("3", "2")
  {
    assert AtMost([], []);
  }

  lemma PlayLog(rows: seq<Row>, id: int, payload: Payload, ops: seq<Op>, hash: Hasher)
    ensures Play(rows, [Log(id, payload)] + ops, hash) == Play(Append(rows, id, payload, hash), ops, hash)
  {
    hide Append;
    assert ([Log(id, payload)] + ops)[1..] == ops;
  }

  /** Two events in time order, and a scan from the second one on. */
  lemma LaterPartIsBroken(hash: Hasher)
    requires hash(At("1")) != GENESIS
    ensures var rows := Play([], [Log(1, At("1"))] + ([Log(2, At("2"))] + []), hash);
            Errors(Pick(rows, SelectedAt(rows, Some("2"), None)), FirstId(rows), hash) != []
  {
    hide Errors, AtMost, SelectedAt;
    var rows := [Row(1, At("1"), GENESIS, hash(At("1"))), Row(2, At("2"), hash(At("1")), hash(At("2")))];
    assert Append([], 1, At("1"), hash) == rows[..1];
    assert Append(rows[..1], 2, At("2"), hash) == rows;
    PlayLog([], 1, At("1"), [Log(2, At("2"))] + [], hash);
    PlayLog(rows[..1], 2, At("2"), [], hash);
    PlayIntact([], [Log(1, At("1"))] + ([Log(2, At("2"))] + []), hash);
    var at := SelectedAt(rows, Some("2"), None);
    Compared();
    assert 0 !in at && 1 in at;
    assert at[0] == 1;
    FilteredScanExact(rows, Some("2"), None, hash);
  }

  lemma OutOfOrderRows(hash: Hasher) returns (rows: seq<Row>)
    ensures rows == Play([], [Log(1, At("1"))] + ([Log(2, At("3"))] + ([Log(3, At("2"))] + [])), hash)
    ensures rows == [Row(1, At("1"), GENESIS, hash(At("1"))), Row(2, At("3"), hash(At("1")), hash(At("3"))),
                     Row(3, At("2"), hash(At("3")), hash(At("2")))]
  {
    hide At;
    var one := [Row(1, At("1"), GENESIS, hash(At("1")))];
    var two := one + [Row(2, At("3"), hash(At("1")), hash(At("3")))];
    rows := two + [Row(3, At("2"), hash(At("3")), hash(At("2")))];
    assert Append([], 1, At("1"), hash) == one && Append(one, 2, At("3"), hash) == two;
    assert Append(two, 3, At("2"), hash) == rows;
    PlayLog([], 1, At("1"), [Log(2, At("3"))] + ([Log(3, At("2"))] + []), hash);
    PlayLog(one, 2, At("3"), [Log(3, At("2"))] + [], hash);
    PlayLog(two, 3, At("2"), [], hash);
  }

  /** Three events stored out of time order, and a scan up to a time that leaves out the middle one. */
  lemma OutOfOrderIsBroken(hash: Hasher)
    requires hash(At("1")) != hash(At("3"))
    ensures var rows := Play([], [Log(1, At("1"))] + ([Log(2, At("3"))] + ([Log(3, At("2"))] + [])), hash);
            Errors(Pick(rows, SelectedAt(rows, None, Some("2"))), FirstId(rows), hash) != []
  {
    hide Errors, AtMost, SelectedAt, Play, Intact;
    var rows := OutOfOrderRows(hash);
    NothingIntact(hash);
    PlayIntact([], [Log(1, At("1"))] + ([Log(2, At("3"))] + ([Log(3, At("2"))] + [])), hash);
    var at := SelectedAt(rows, None, Some("2"));
    Compared();
    assert 0 in at && 1 !in at && 2 in at;
    assert at[0] == 0 && at[1] == 2;
    assert !GapCloses(rows, at, 1);
    FilteredScanExact(rows, None, Some("2"), hash);
  }

  lemma NothingIntact(hash: Hasher)
    ensures Intact([], hash)
  {
  }

  // ---------------------------------------------------------------- tampering

  /**
   Replacing one row of a verified log goes unnoticed exactly when the new row's own hash fits,
   its link fits, and the row after it still links to it.
   */
  lemma ReplaceExact(rows: seq<Row>, k: nat, row: Row, hash: Hasher)
    requires Intact(rows, hash) && k < |rows| && row.id == rows[k].id
    ensures var t := rows[k := row];
            Errors(t, FirstId(t), hash) == [] <==>
              && hash(row.payload) == row.eventHash
              && (k > 0 ==> row.prevHash == rows[k].prevHash)
              && (k + 1 < |rows| ==> row.eventHash == rows[k].eventHash)
  {
    hide Errors;
    var t := rows[k := row];
    CleanExact(t, FirstId(t), hash);
    if k > 0 {
      assert rows[k].prevHash == rows[k - 1].eventHash;
    }
    if k + 1 < |rows| {
      assert rows[k + 1].prevHash == rows[k].eventHash;
    }
    if Intact(t, hash) {
      assert hash(t[k].payload) == t[k].eventHash;
      if k > 0 { assert t[k].prevHash == t[k - 1].eventHash; }
      if k + 1 < |rows| { assert t[k + 1].prevHash == t[k].eventHash; }
    }
    if hash(row.payload) == row.eventHash && (k > 0 ==> row.prevHash == rows[k].prevHash)
       && (k + 1 < |rows| ==> row.eventHash == rows[k].eventHash) {
      forall j | 0 <= j < |t| ensures hash(t[j].payload) == t[j].eventHash {
        if j != k { assert hash(rows[j].payload) == rows[j].eventHash; }
      }
      forall j | 0 < j < |t| ensures t[j].prevHash == t[j - 1].eventHash {
        assert rows[j].prevHash == rows[j - 1].eventHash;
      }
    }
  }

  /**
   Under an injective hash: changing a hashed field, or the stored hash, of any one row, or the
   link of any row but the first, is detected.
   */
  lemma TamperingIsDetected(rows: seq<Row>, k: nat, row: Row, hash: Hasher)
    requires Intact(rows, hash) && k < |rows| && Injective(hash)
    requires
      || (exists p :: p != rows[k].payload && row == rows[k].(payload := p))
      || (exists h :: h != rows[k].eventHash && row == rows[k].(eventHash := h))
      || (k > 0 && exists h :: h != rows[k].prevHash && row == rows[k].(prevHash := h))
    ensures Errors(rows[k := row], FirstId(rows[k := row]), hash) != []
  {
    ReplaceExact(rows, k, row, hash);
    assert hash(rows[k].payload) == rows[k].eventHash;
  }

  /** The link of the first row is not checked against anything: it can be changed freely. */
  lemma FirstLinkIsFree(rows: seq<Row>, h: Hash, hash: Hasher)
    requires Intact(rows, hash) && rows != []
    ensures var t := rows[0 := rows[0].(prevHash := h)]; Errors(t, FirstId(t), hash) == []
  {
    ReplaceExact(rows, 0, rows[0].(prevHash := h), hash);
    assert hash(rows[0].payload) == rows[0].eventHash;
  }

  function Without(rows: seq<Row>, k: nat): seq<Row>
    requires k < |rows|
  {
    rows[..k] + rows[k + 1..]
  }

  /**
   Dropping one row of a verified log is detected exactly when the row is an inner one whose hash
   differs from its predecessor's. Dropping the oldest or the newest row never is.
   */
  lemma DropExact(rows: seq<Row>, k: nat, hash: Hasher)
    requires Intact(rows, hash) && k < |rows|
    ensures var t := Without(rows, k);
            Errors(t, FirstId(t), hash) != [] <==>
              0 < k < |rows| - 1 && rows[k].eventHash != rows[k - 1].eventHash
  {
    hide Errors;
    var t := Without(rows, k);
    CleanExact(t, FirstId(t), hash);
    forall j | 0 <= j < |t| ensures hash(t[j].payload) == t[j].eventHash {
      var i := if j < k then j else j + 1;
      assert t[j] == rows[i] && hash(rows[i].payload) == rows[i].eventHash;
    }
    forall j | 0 < j < |t| && j != k ensures t[j].prevHash == t[j - 1].eventHash {
      var i := if j < k then j else j + 1;
      assert t[j] == rows[i] && t[j - 1] == rows[i - 1];
      assert rows[i].prevHash == rows[i - 1].eventHash;
    }
    if 0 < k < |t| {
      assert t[k] == rows[k + 1] && t[k - 1] == rows[k - 1];
      assert rows[k + 1].prevHash == rows[k].eventHash;
    }
  }

  /** The hash of an event does not cover its link, so an inner row can be dropped and the next one relinked. */
  lemma RelinkedDropIsUnnoticed(rows: seq<Row>, k: nat, hash: Hasher)
    requires Intact(rows, hash) && 0 < k < |rows| - 1
    ensures var t := Without(rows, k);
            var u := t[k := rows[k + 1].(prevHash := rows[k - 1].eventHash)];
            Errors(u, FirstId(u), hash) == []
  {
    hide Errors;
    var u := Without(rows, k)[k := rows[k + 1].(prevHash := rows[k - 1].eventHash)];
    CleanExact(u, FirstId(u), hash);
    forall j | 0 <= j < |u| ensures hash(u[j].payload) == u[j].eventHash {
      var i := if j < k then j else j + 1;
      assert u[j].payload == rows[i].payload && hash(rows[i].payload) == rows[i].eventHash;
    }
    forall j | 0 < j < |u| ensures u[j].prevHash == u[j - 1].eventHash {
      var i := if j < k then j else j + 1;
      assert rows[i].prevHash == rows[i - 1].eventHash;
    }
  }

  function BeforeOf(rows: seq<Row>, j: nat): Option<Hash>
    requires j < |rows|
  {
    if j == 0 then None else Some(rows[j - 1].eventHash)
  }

  /** Every error is the fault of one row. */
  lemma {:induction false} ErrorAt(rows: seq<Row>, firstId: Option<int>, hash: Hasher, e: ChainError) returns (j: nat)
    requires e in Errors(rows, firstId, hash)
    ensures j < |rows| && e in RowErrors(rows[j], BeforeOf(rows, j), firstId, hash)
    decreases |rows|
  {
    hide RowErrors;
    var n := |rows| - 1;
    if e in Errors(rows[..n], firstId, hash) {
      j := ErrorAt(rows[..n], firstId, hash, e);
    } else {
      j := n;
    }
  }

  lemma OtherRowsClean(rows: seq<Row>, k: nat, row: Row, j: nat, hash: Hasher)
    requires Intact(rows, hash) && k < |rows| && row.id == rows[k].id && j < |rows| && j != k && j != k + 1
    ensures var t := rows[k := row]; RowErrors(t[j], BeforeOf(t, j), FirstId(t), hash) == []
  {
    assert hash(rows[j].payload) == rows[j].eventHash;
    assert j > 0 ==> rows[j].prevHash == rows[j - 1].eventHash;
  }

  /** Whatever a row is replaced with, at most that row and the next one are reported. */
  lemma ReplaceFlagsTwo(rows: seq<Row>, k: nat, row: Row, hash: Hasher, e: ChainError)
    requires Intact(rows, hash) && k < |rows| && row.id == rows[k].id
    requires e in Errors(rows[k := row], FirstId(rows[k := row]), hash)
    ensures e.id == rows[k].id || (k + 1 < |rows| && e.id == rows[k + 1].id)
  {
    hide Errors, Intact, RowErrors;
    var t := rows[k := row];
    var j := ErrorAt(t, FirstId(t), hash, e);
    ErrorIds(t[j], BeforeOf(t, j), FirstId(t), hash, e);
    if j != k && j != k + 1 {
      OtherRowsClean(rows, k, row, j, hash);
    }
  }

  lemma ErrorIds(row: Row, before: Option<Hash>, firstId: Option<int>, hash: Hasher, e: ChainError)
    requires e in RowErrors(row, before, firstId, hash)
    ensures e.id == row.id
  {
  }
}
