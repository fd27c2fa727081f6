/** The history paging loops: finding the oldest stored message of a chat, and
    pulling older history until the phone delivers no more. */
module Backfill {
  import opened Bytes
  import opened Common

  const MAX_SAFE_INTEGER := 0x1f_ffff_ffff_ffff
  const PAGE := 500
  const MAX_PAGES := 400

  datatype Row = Row(id: string, timestamp: int)

  /** A reply to a message query: an array of rows, or anything else. */
  datatype Reply = Rows(rows: seq<Row>) | NotAnArray

  /** The service seen through one client: `store(n)` is the chat's messages at the
      time of query `n`, `reply(n, before, limit)` what that query is answered. */
  datatype Service = Service(store: nat -> set<Row>, reply: (nat, int, nat) -> Reply)

  function Older(s: set<Row>, before: int): (r: set<Row>) { set x | x in s && x.timestamp < before }

  ghost predicate Distinct(rows: seq<Row>) { forall i, j :: 0 <= i < j < |rows| ==> rows[i] != rows[j] }

  /** A page: the newest `limit` messages strictly older than `before`, newest
      first; how ties are broken is left open. */
  ghost predicate IsPage(s: set<Row>, before: int, limit: nat, rows: seq<Row>) {
    && Distinct(rows)
    && (forall i :: 0 <= i < |rows| ==> rows[i] in Older(s, before))
    && |rows| == Least(limit, |Older(s, before)|)
    && (forall i, j :: 0 <= i < j < |rows| ==> rows[i].timestamp >= rows[j].timestamp)
    && (forall x, i :: x in Older(s, before) && x !in rows && 0 <= i < |rows| ==> x.timestamp <= rows[i].timestamp)
  }

  /** Every array the service sends is a page of the store at that time; it never
      sends more than 500 rows. */
  ghost predicate Honest(v: Service) {
    forall n: nat, before: int, limit: nat {:trigger v.reply(n, before, limit)} ::
      v.reply(n, before, limit).Rows? ==> IsPage(v.store(n), before, Least(limit, PAGE), v.reply(n, before, limit).rows)
  }

  // ----- the oldest stored message -----

  /** At most `budget` pages from query `n` on: the timestamp found, and the number
      of the next query. */
  function OldestFrom(v: Service, n: nat, before: int, last: Option<int>, budget: nat): (r: (Option<int>, nat))
    decreases budget
  {
    if budget == 0 then (last, n)
    else
      match v.reply(n, before, PAGE)
      case NotAnArray => (last, n + 1)
      case Rows(page) =>
        if |page| == 0 then (last, n + 1)
        else
          var oldest := page[|page| - 1].timestamp;
          if |page| < PAGE then (Some(oldest), n + 1)
          else OldestFrom(v, n + 1, oldest, Some(oldest), budget - 1)
  }

  method FindOldestTimestamp(v: Service, n: nat) returns (oldest: Option<int>, next: nat)
    ensures (oldest, next) == OldestFrom(v, n, MAX_SAFE_INTEGER, None, MAX_PAGES)
  {
    var before := MAX_SAFE_INTEGER;
    oldest, next := None, n;
    for guard := 0 to MAX_PAGES
      invariant OldestFrom(v, next, before, oldest, MAX_PAGES - guard)
             == OldestFrom(v, n, MAX_SAFE_INTEGER, None, MAX_PAGES)
    {
      var reply := v.reply(next, before, PAGE);
      next := next + 1;
      if reply.NotAnArray? || |reply.rows| == 0 {
        return;
      }
      oldest := Some(reply.rows[|reply.rows| - 1].timestamp);
      if |reply.rows| < PAGE {
        return;
      }
      before := oldest.value;
    }
  }

  /** A store that does not change and always answers. */
  ghost predicate Static(v: Service, s: set<Row>) {
    && Honest(v)
    && (forall n: nat :: v.store(n) == s)
    && (forall n: nat, before: int, limit: nat {:trigger v.reply(n, before, limit)} :: v.reply(n, before, limit).Rows?)
  }

  ghost predicate IsOldest(s: set<Row>, t: int) {
    (exists x :: x in s && x.timestamp == t) && forall x :: x in s ==> t <= x.timestamp
  }

  function RowSet(rows: seq<Row>): (s: set<Row>) { set x | x in rows }

  lemma {:induction false} DistinctCount(rows: seq<Row>)
    requires Distinct(rows)
    ensures |RowSet(rows)| == |rows|
  {
    if |rows| > 0 {
      var n := |rows| - 1;
      DistinctCount(rows[..n]);
      assert RowSet(rows) == RowSet(rows[..n]) + {rows[n]};
    }
  }

  lemma CountWithin(a: set<Row>, b: set<Row>)
    requires a <= b
    ensures |a| <= |b| && |b - a| == |b| - |a|
  {
    assert b == a + (b - a);
  }

  /** A full page leaves at least 500 fewer messages to look at, exactly 500 fewer
      if no two have the same timestamp. */
  lemma PageAdvances(s: set<Row>, before: int, page: seq<Row>)
    requires IsPage(s, before, PAGE, page) && |page| == PAGE
    ensures var t := page[PAGE - 1].timestamp;
            && t < before && Older(s, t) + RowSet(page) <= Older(s, before)
            && Older(s, t) <= Older(s, before) - RowSet(page)
            && |Older(s, t)| <= |Older(s, before)| - PAGE
            && (DistinctTimes(s) ==> |Older(s, t)| == |Older(s, before)| - PAGE)
  {
    var t := page[PAGE - 1].timestamp;
    var all, seen := Older(s, before), RowSet(page);
    DistinctCount(page);
    assert page[PAGE - 1] in all;
    forall x | x in seen
      ensures x in all && x.timestamp >= t
    {
      var i :| 0 <= i < |page| && page[i] == x;
    }
    CountWithin(seen, all);
    CountWithin(Older(s, t), all - seen);
    if DistinctTimes(s) {
      forall x | x in all - seen
        ensures x in Older(s, t)
      {
        assert x.timestamp <= page[PAGE - 1].timestamp;
        assert x != page[PAGE - 1];
      }
      assert Older(s, t) == all - seen;
    }
  }

  ghost predicate DistinctTimes(s: set<Row>) {
    forall x, y :: x in s && y in s && x != y ==> x.timestamp != y.timestamp
  }

  lemma ShortPageIsAll(s: set<Row>, before: int, page: seq<Row>)
    requires IsPage(s, before, PAGE, page) && |page| < PAGE
    ensures Older(s, before) == {} <==> page == []
    ensures |page| > 0 ==> IsOldest(Older(s, before), page[|page| - 1].timestamp)
  {
    DistinctCount(page);
    assert RowSet(page) <= Older(s, before);
    CountWithin(RowSet(page), Older(s, before));
    assert Older(s, before) - RowSet(page) == {};
    assert forall x :: x in Older(s, before) ==> x in page;
    assert RowSet(page) == Older(s, before);
    if |page| > 0 { assert page[|page| - 1] in Older(s, before); }
  }

  /** With no more than 500 messages per page of budget, the walk ends at the true
      minimum, ties across page edges included. */
  lemma {:induction false} OldestIsMinimum(v: Service, s: set<Row>, n: nat, before: int, last: Option<int>, budget: nat)
    requires Static(v, s) && |Older(s, before)| <= PAGE * budget
    ensures var r := OldestFrom(v, n, before, last, budget).0;
            if Older(s, before) == {} then r == last else r.Some? && IsOldest(Older(s, before), r.value)
    decreases budget
  {
    hide IsPage, Static, IsOldest, Older, RowSet, DistinctTimes;
    if budget > 0 {
      StaticPage(v, s, n, before);
      var page := v.reply(n, before, PAGE).rows;
      if |page| < PAGE {
        ShortPageIsAll(s, before, page);
      } else {
        var t := page[PAGE - 1].timestamp;
        PageAdvances(s, before, page);
        MinimumBelow(s, before, page);
        OldestIsMinimum(v, s, n + 1, t, Some(t), budget - 1);
      }
    }
  }

  lemma StaticPage(v: Service, s: set<Row>, n: nat, before: int)
    requires Static(v, s)
    ensures v.reply(n, before, PAGE).Rows? && IsPage(s, before, PAGE, v.reply(n, before, PAGE).rows)
    ensures |v.reply(n, before, PAGE).rows| == Least(PAGE, |Older(s, before)|)
  {
    assert v.store(n) == s;
  }

  /** A minimum stays one among the messages older than something, if any are. */
  lemma MinimumStays(s: set<Row>, before: int, t: int, m: int)
    requires t <= before && Older(s, t) != {} && IsOldest(Older(s, before), m)
    ensures IsOldest(Older(s, t), m)
  {
    var x :| x in Older(s, t);
    assert x in Older(s, before);
    var y :| y in Older(s, before) && y.timestamp == m;
    assert y in Older(s, t);
    assert forall z :: z in Older(s, t) ==> z in Older(s, before);
  }

  lemma MinimumBelow(s: set<Row>, before: int, page: seq<Row>)
    requires IsPage(s, before, PAGE, page) && |page| == PAGE
    ensures var t := page[PAGE - 1].timestamp;
            && Older(s, before) != {}
            && (Older(s, t) == {} ==> IsOldest(Older(s, before), t))
            && forall m :: IsOldest(Older(s, t), m) ==> IsOldest(Older(s, before), m)
  {
    var t := page[PAGE - 1].timestamp;
    assert page[PAGE - 1] in Older(s, before);
    forall x | x in Older(s, before)
      ensures x.timestamp >= t || x in Older(s, t)
    {}
    forall m | IsOldest(Older(s, t), m)
      ensures IsOldest(Older(s, before), m)
    {
      var x :| x in Older(s, t) && x.timestamp == m;
      assert x in Older(s, before);
    }
  }

  /** When all timestamps differ and there are more, it stops short of the minimum. */
  lemma {:induction false} OldestFallsShort(
    v: Service, s: set<Row>, n: nat, before: int, last: Option<int>, budget: nat)
    requires Static(v, s) && DistinctTimes(s) && |Older(s, before)| > PAGE * budget
    requires last.Some? ==> exists x :: x in Older(s, before) && x.timestamp < last.value
    ensures var r := OldestFrom(v, n, before, last, budget).0;
            r.Some? ==> !IsOldest(Older(s, before), r.value)
    decreases budget
  {
    hide IsPage, Static, DistinctTimes;
    if budget > 0 {
      StaticPage(v, s, n, before);
      var page := v.reply(n, before, PAGE).rows;
      var t := page[PAGE - 1].timestamp;
      PageAdvances(s, before, page);
      var x :| x in Older(s, t);
      OldestFallsShort(v, s, n + 1, t, Some(t), budget - 1);
      var r := OldestFrom(v, n + 1, t, Some(t), budget - 1).0;
      if r.Some? && IsOldest(Older(s, before), r.value) {
        MinimumStays(s, before, t, r.value);
      }
    }
  }

  /** The oldest timestamp of a static chat is found whenever it has at most 200,000
      messages; where no two share a timestamp, exactly then. */
  lemma OldestFoundIff(v: Service, s: set<Row>, n: nat)
    requires Static(v, s)
    ensures var all := Older(s, 0x1f_ffff_ffff_ffff);
            var r := OldestFrom(v, n, MAX_SAFE_INTEGER, None, MAX_PAGES).0;
            && (|all| <= 200_000 ==> if all == {} then r == None else r.Some? && IsOldest(all, r.value))
            && (DistinctTimes(s) && all != {} ==> (r.Some? && IsOldest(all, r.value) <==> |all| <= 200_000))
  {
    hide Static, DistinctTimes, OldestFrom, IsOldest;
    if |Older(s, MAX_SAFE_INTEGER)| <= 200_000 {
      OldestIsMinimum(v, s, n, MAX_SAFE_INTEGER, None, MAX_PAGES);
    } else if DistinctTimes(s) {
      OldestFallsShort(v, s, n, MAX_SAFE_INTEGER, None, MAX_PAGES);
    }
  }

  // ----- services that page a list -----

  ghost predicate NewestFirst(rows: seq<Row>) {
    forall i, j :: 0 <= i < j < |rows| ==> rows[i].timestamp >= rows[j].timestamp
  }

  function OlderRows(rows: seq<Row>, before: int): (r: seq<Row>) {
    if |rows| == 0 || rows[0].timestamp < before then rows else OlderRows(rows[1..], before)
  }

  function ListPage(rows: seq<Row>, before: int, limit: nat): (r: seq<Row>) {
    var older := OlderRows(rows, before);
    older[..Least(limit, |older|)]
  }

  lemma {:induction false} OlderIsSuffix(rows: seq<Row>, before: int)
    requires Distinct(rows) && NewestFirst(rows)
    ensures Distinct(OlderRows(rows, before)) && NewestFirst(OlderRows(rows, before))
    ensures RowSet(OlderRows(rows, before)) == Older(RowSet(rows), before)
  {
    if |rows| > 0 {
      if rows[0].timestamp < before {
        assert forall x :: x in RowSet(rows) ==> x.timestamp < before;
      } else {
        OlderIsSuffix(rows[1..], before);
        assert RowSet(rows) == {rows[0]} + RowSet(rows[1..]);
      }
    }
  }

  lemma {:induction false} NoneOlder(rows: seq<Row>, before: int)
    requires forall i :: 0 <= i < |rows| ==> rows[i].timestamp >= before
    ensures OlderRows(rows, before) == []
  {
    if |rows| > 0 { NoneOlder(rows[1..], before); }
  }

  lemma ListPageIsPage(rows: seq<Row>, before: int, limit: nat)
    requires Distinct(rows) && NewestFirst(rows)
    ensures IsPage(RowSet(rows), before, limit, ListPage(rows, before, limit))
  {
    hide OlderRows, Older;
    OlderIsSuffix(rows, before);
    var older := OlderRows(rows, before);
    DistinctCount(older);
    var page := ListPage(rows, before, limit);
    forall x, i | x in RowSet(older) && x !in page && 0 <= i < |page|
      ensures x.timestamp <= page[i].timestamp
    {
      var k :| 0 <= k < |older| && older[k] == x;
      assert k >= |page|;
    }
  }

  /** A service that answers every query from the list it has at the time. */
  function ListService(list: nat -> seq<Row>): (v: Service) {
    Service((n: nat) => RowSet(list(n)),
            (n: nat, before: int, limit: nat) => Rows(ListPage(list(n), before, Least(limit, PAGE))))
  }

  lemma ListReply(list: nat -> seq<Row>, n: nat, before: int, limit: nat)
    ensures ListService(list).reply(n, before, limit) == Rows(ListPage(list(n), before, Least(limit, PAGE)))
    ensures ListService(list).store(n) == RowSet(list(n))
  {}

  lemma ListServiceIsHonest(list: nat -> seq<Row>)
    requires forall n: nat :: Distinct(list(n)) && NewestFirst(list(n))
    ensures Honest(ListService(list))
  {
    hide ListPage, IsPage, Distinct, NewestFirst;
    var v := ListService(list);
    forall n: nat, before: int, limit: nat {:trigger v.reply(n, before, limit)}
      ensures IsPage(v.store(n), before, Least(limit, PAGE), v.reply(n, before, limit).rows)
    {
      ListPageIsPage(list(n), before, Least(limit, PAGE));
    }
  }

  /** `n` messages, one a second. */
  function Seconds(n: nat): (rows: seq<Row>)
    ensures |rows| == n
  {
    seq(n, i requires 0 <= i < n => Row("", n - 1 - i))
  }

  /** Chats of every size show the bound: the oldest of `n` messages is found up to
      200,000 of them and missed beyond. */
  lemma SecondsFoundIff(n: nat)
    requires 0 < n <= MAX_SAFE_INTEGER
    ensures var v := ListService(_ => Seconds(n));
            && Static(v, RowSet(Seconds(n)))
            && (OldestFrom(v, 0, MAX_SAFE_INTEGER, None, MAX_PAGES).0 == Some(0) <==> n <= 200_000)
  {
    hide OldestFrom, ListPage, Honest;
    var rows := Seconds(n);
    var s := RowSet(rows);
    ListServiceIsHonest(_ => rows);
    OldestFoundIff(ListService(_ => rows), s, 0);
    DistinctCount(rows);
    assert Older(s, MAX_SAFE_INTEGER) == s;
    assert rows[n - 1] in s && rows[n - 1].timestamp == 0;
    SecondsOldest(n);
  }

  lemma SecondsOldest(n: nat)
    requires n > 0
    ensures DistinctTimes(RowSet(Seconds(n)))
    ensures forall t :: IsOldest(RowSet(Seconds(n)), t) <==> t == 0
  {
    assert Seconds(n)[n - 1] in RowSet(Seconds(n));
  }

  // ----- pulling older history -----

  /** One call: the oldest timestamp reached, stale rounds in a row, and what each
      round delivered (nothing, or a page of older messages). */
  datatype Run = Run(oldest: int, added: nat, stale: nat, rounds: seq<seq<Row>>, next: nat, done: bool)

  /** Messages asked for per round, round limit, probes per round (by default 50, 8, 6). */
  datatype Options = Options(count: nat, maxRounds: int, probes: nat)

  function RoundLimit(maxRounds: int): (m: nat)
    ensures 1 <= m <= 100
  {
    if maxRounds < 1 then 1 else if maxRounds > 100 then 100 else maxRounds
  }

  /** Poll up to `probes` times for messages older than `oldest`. */
  function Probe(v: Service, n: nat, oldest: int, limit: nat, probes: nat): (r: (seq<Row>, nat))
    decreases probes
  {
    if probes == 0 then ([], n)
    else
      match v.reply(n, oldest, limit)
      case Rows(rows) => if |rows| > 0 then (rows, n + 1) else Probe(v, n + 1, oldest, limit, probes - 1)
      case NotAnArray => Probe(v, n + 1, oldest, limit, probes - 1)
  }

  /** A probe takes the first reply that has rows, among the `probes` queries from `n`
      on; if none has, it comes back empty after asking them all. */
  lemma {:induction false} ProbeTakesFirst(v: Service, n: nat, oldest: int, limit: nat, probes: nat)
    ensures var (got, next) := Probe(v, n, oldest, limit, probes);
            && (got == [] ==> next == n + probes
                              && forall k :: n <= k < next ==> v.reply(k, oldest, limit) in {NotAnArray, Rows([])})
            && (got != [] ==> n < next <= n + probes && v.reply(next - 1, oldest, limit) == Rows(got)
                              && forall k :: n <= k < next - 1 ==> v.reply(k, oldest, limit) in {NotAnArray, Rows([])})
    decreases probes
  {
    if probes > 0 {
      var reply := v.reply(n, oldest, limit);
      if !(reply.Rows? && |reply.rows| > 0) { ProbeTakesFirst(v, n + 1, oldest, limit, probes - 1); }
    }
  }

  function MinTime(rows: seq<Row>): (t: int)
    requires |rows| > 0
    ensures forall i :: 0 <= i < |rows| ==> t <= rows[i].timestamp
    ensures exists i :: 0 <= i < |rows| && t == rows[i].timestamp
  {
    if |rows| == 1 then rows[0].timestamp
    else
      var m := MinTime(rows[1..]);
      assert exists i :: 0 <= i < |rows[1..]| && m == rows[1..][i].timestamp;
      assert forall i :: 0 < i < |rows| ==> rows[i] == rows[1..][i - 1];
      if rows[0].timestamp <= m then rows[0].timestamp else m
  }

  function OneRound(v: Service, o: Options, s: Run): (r: Run) {
    var (got, next) := Probe(v, s.next, s.oldest, o.count + 20, o.probes);
    if |got| == 0 then
      s.(stale := s.stale + 1, rounds := s.rounds + [[]], next := next, done := s.stale + 1 >= 2)
    else
      var minTime := MinTime(got);
      var t := s.(stale := 0, added := s.added + |got|, rounds := s.rounds + [got], next := next);
      if minTime >= s.oldest then t.(done := true) else t.(oldest := minTime)
  }

  function AllRounds(v: Service, o: Options, s: Run): (r: Run)
    decreases RoundLimit(o.maxRounds) - |s.rounds|
  {
    if s.done || |s.rounds| >= RoundLimit(o.maxRounds) then s
    else AllRounds(v, o, OneRound(v, o, s))
  }

  function Begin(start: int, n: nat): (s: Run) { Run(start, 0, 0, [], n, false) }

  datatype Result = Result(rounds: nat, added: nat, oldestStart: int, oldestNow: int, reachedStart: bool)

  function Report(start: int, s: Run): (r: Result) {
    Result(|s.rounds|, s.added, start, s.oldest, s.stale >= 2)
  }

  method Poll(v: Service, n: nat, oldest: int, limit: nat, probes: nat) returns (got: seq<Row>, next: nat)
    ensures (got, next) == Probe(v, n, oldest, limit, probes)
  {
    got, next := [], n;
    for p := 0 to probes
      invariant got == [] && Probe(v, next, oldest, limit, probes - p) == Probe(v, n, oldest, limit, probes)
    {
      var older := v.reply(next, oldest, limit);
      next := next + 1;
      if older.Rows? && |older.rows| > 0 {
        got := older.rows;
        return;
      }
    }
  }

  function BackfillResult(v: Service, o: Options, n: nat): (r: Option<Result>) {
    var (start, next) := OldestFrom(v, n, MAX_SAFE_INTEGER, None, MAX_PAGES);
    match start
    case None => None
    case Some(t) => Some(Report(t, AllRounds(v, o, Begin(t, next))))
  }

  method DeepBackfill(v: Service, o: Options, n: nat) returns (r: Option<Result>)
    ensures r == BackfillResult(v, o, n)
  {
    hide OldestFrom, RoundLimit, Probe;
    var maxRounds := RoundLimit(o.maxRounds);
    var start, next := FindOldestTimestamp(v, n);
    if start.None? {
      return None;
    }
    var oldest := start.value;
    var rounds: nat, added: nat, stale: nat := 0, 0, 0;
    var done := false;
    ghost var first := Begin(oldest, next);
    ghost var s := first;
    while rounds < maxRounds && !done
      invariant s == Run(oldest, added, stale, s.rounds, next, done) && |s.rounds| == rounds
      invariant AllRounds(v, o, s) == AllRounds(v, o, first)
      decreases maxRounds - rounds
    {
      rounds := rounds + 1;
      s := OneRound(v, o, s);
      var got;
      got, next := Poll(v, next, oldest, o.count + 20, o.probes);
      if |got| == 0 {
        stale := stale + 1;
        done := stale >= 2;
        continue;
      }
      stale := 0;
      var minTime := MinTime(got);
      added := added + |got|;
      if minTime >= oldest {
        done := true;
      } else {
        oldest := minTime;
      }
    }
    return Some(Result(rounds, added, start.value, oldest, stale >= 2));
  }

  // ----- what every run keeps -----

  /** The store only grows, and no two of its rows share an id. */
  ghost predicate Grows(v: Service) {
    && (forall n: nat, m: nat :: n <= m ==> v.store(n) <= v.store(m))
    && (forall n: nat, x, y :: x in v.store(n) && y in v.store(n) && x.id == y.id ==> x == y)
  }

  function Counted(rounds: seq<seq<Row>>): (rows: seq<Row>) {
    if |rounds| == 0 then [] else Counted(rounds[..|rounds| - 1]) + rounds[|rounds| - 1]
  }

  /** How many of the last rounds, in a row, delivered nothing. */
  function TrailingEmpty(rounds: seq<seq<Row>>): (n: nat)
    ensures n <= |rounds|
  {
    if |rounds| == 0 || rounds[|rounds| - 1] != [] then 0 else 1 + TrailingEmpty(rounds[..|rounds| - 1])
  }

  ghost predicate DistinctIds(rows: seq<Row>) { forall i, j :: 0 <= i < j < |rows| ==> rows[i].id != rows[j].id }

  ghost predicate FromStore(v: Service, rows: seq<Row>, n: nat) {
    forall i :: 0 <= i < |rows| ==> rows[i] in v.store(n)
  }

  ghost predicate KeptSoFar(v: Service, start: int, s: Run) {
    var rows := Counted(s.rounds);
    && s.added == |rows| && s.oldest <= start
    && (forall i :: 0 <= i < |rows| ==> s.oldest <= rows[i].timestamp < start)
    && (if rows == [] then s.oldest == start else exists i :: 0 <= i < |rows| && rows[i].timestamp == s.oldest)
    && FromStore(v, rows, s.next) && DistinctIds(rows)
    && s.stale == TrailingEmpty(s.rounds) <= 2 && (s.done <==> s.stale == 2)
  }

  /** A probe brings nothing, or part of the store at its time, older than asked. */
  lemma {:induction false} ProbeIsOlder(v: Service, n: nat, oldest: int, limit: nat, probes: nat)
    requires Honest(v) && Grows(v)
    ensures var (got, next) := Probe(v, n, oldest, limit, probes);
            && next >= n && DistinctIds(got) && FromStore(v, got, next)
            && forall i :: 0 <= i < |got| ==> got[i].timestamp < oldest
    decreases probes
  {
    if probes > 0 {
      var reply := v.reply(n, oldest, limit);
      if reply.Rows? && |reply.rows| > 0 {
        PageFromStore(v, n, oldest, limit);
      } else {
        hide Honest, Grows;
        ProbeIsOlder(v, n + 1, oldest, limit, probes - 1);
      }
    }
  }

  lemma PageFromStore(v: Service, n: nat, oldest: int, limit: nat)
    requires Honest(v) && Grows(v) && v.reply(n, oldest, limit).Rows?
    ensures var rows := v.reply(n, oldest, limit).rows;
            && DistinctIds(rows) && FromStore(v, rows, n + 1)
            && forall i :: 0 <= i < |rows| ==> rows[i].timestamp < oldest
  {
    var rows := v.reply(n, oldest, limit).rows;
    assert IsPage(v.store(n), oldest, Least(limit, PAGE), rows);
    assert v.store(n) <= v.store(n + 1);
    forall i | 0 <= i < |rows|
      ensures rows[i] in v.store(n) && rows[i].timestamp < oldest
    {
      assert rows[i] in Older(v.store(n), oldest);
    }
  }

  /** Rows from growing stores, older ones after newer ones, repeat no id. */
  lemma JoinDistinct(v: Service, a: seq<Row>, n: nat, b: seq<Row>, m: nat, t: int)
    requires Grows(v) && n <= m && FromStore(v, a, n) && FromStore(v, b, m) && DistinctIds(a) && DistinctIds(b)
    requires forall i :: 0 <= i < |a| ==> t <= a[i].timestamp
    requires forall i :: 0 <= i < |b| ==> b[i].timestamp < t
    ensures DistinctIds(a + b) && FromStore(v, a + b, m)
  {
    assert v.store(n) <= v.store(m);
    forall i, j | 0 <= i < |a| && 0 <= j < |b|
      ensures a[i].id != b[j].id
    {
      assert a[i] in v.store(m) && b[j] in v.store(m);
    }
  }

  /** What one round does to a run. */
  lemma AfterRound(v: Service, o: Options, s: Run)
    ensures var (got, next) := Probe(v, s.next, s.oldest, o.count + 20, o.probes);
            var r := OneRound(v, o, s);
            && r.rounds == s.rounds + [got] && Counted(r.rounds) == Counted(s.rounds) + got
            && r.next == next && r.added == s.added + |got|
            && r.oldest == (if got == [] || MinTime(got) >= s.oldest then s.oldest else MinTime(got))
            && r.stale == (if got == [] then s.stale + 1 else 0)
            && r.done == (if got == [] then r.stale >= 2 else MinTime(got) >= s.oldest || s.done)
            && TrailingEmpty(r.rounds) == (if got == [] then 1 + TrailingEmpty(s.rounds) else 0)
  {
    hide Probe;
    var r := OneRound(v, o, s);
    assert r.rounds[..|s.rounds|] == s.rounds;
  }

  lemma RoundKeeps(v: Service, o: Options, start: int, s: Run)
    requires Honest(v) && Grows(v) && KeptSoFar(v, start, s) && !s.done
    ensures KeptSoFar(v, start, OneRound(v, o, s)) && |OneRound(v, o, s).rounds| == |s.rounds| + 1
  {
    hide Honest, Grows, Probe, DistinctIds, FromStore, OneRound, Counted, TrailingEmpty;
    var (got, next) := Probe(v, s.next, s.oldest, o.count + 20, o.probes);
    ProbeIsOlder(v, s.next, s.oldest, o.count + 20, o.probes);
    AfterRound(v, o, s);
    var rows := Counted(s.rounds);
    JoinDistinct(v, rows, s.next, got, next, s.oldest);
    if got == [] {
      assert rows + got == rows;
    } else {
      var i :| 0 <= i < |got| && MinTime(got) == got[i].timestamp;
      assert (rows + got)[|rows| + i] == got[i];
    }
  }

  lemma {:induction false} RunKeeps(v: Service, o: Options, start: int, s: Run)
    requires Honest(v) && Grows(v) && KeptSoFar(v, start, s) && |s.rounds| <= RoundLimit(o.maxRounds)
    ensures var r := AllRounds(v, o, s);
            && KeptSoFar(v, start, r) && |r.rounds| <= RoundLimit(o.maxRounds)
            && (r.done || |r.rounds| == RoundLimit(o.maxRounds))
    decreases RoundLimit(o.maxRounds) - |s.rounds|
  {
    hide Honest, Grows, KeptSoFar, OneRound, RoundLimit;
    if !s.done && |s.rounds| < RoundLimit(o.maxRounds) {
      RoundKeeps(v, o, start, s);
      RunKeeps(v, o, start, OneRound(v, o, s));
    }
  }

  /** Every run over a growing store: no message is counted twice, each is older
      than the start and no older than the end, there are at most 100 rounds, the
      start counts as reached exactly if the last two rounds both brought nothing,
      and the run stops for no other reason than that or its round limit. */
  lemma BackfillIsExact(v: Service, o: Options, start: int, n: nat)
    requires Honest(v) && Grows(v)
    ensures var s := AllRounds(v, o, Begin(start, n));
            var r := Report(start, s);
            var rows := Counted(s.rounds);
            && r.oldestStart == start && r.rounds == |s.rounds| <= 100
            && (1 <= o.maxRounds ==> r.rounds <= o.maxRounds) && (o.maxRounds < 1 ==> r.rounds <= 1)
            && r.added == |rows| && DistinctIds(rows)
            && (forall i :: 0 <= i < |rows| ==> r.oldestNow <= rows[i].timestamp < r.oldestStart)
            && (rows == [] ==> r.oldestNow == start)
            && (rows != [] ==> exists i :: 0 <= i < |rows| && rows[i].timestamp == r.oldestNow)
            && (r.reachedStart <==> |s.rounds| >= 2 && s.rounds[|s.rounds| - 1] == [] && s.rounds[|s.rounds| - 2] == [])
            && (r.reachedStart || r.rounds == (if o.maxRounds < 1 then 1 else Least(o.maxRounds, 100)))
  {
    hide Honest, Grows, OneRound;
    var s := Begin(start, n);
    assert Counted([]) == [];
    RunKeeps(v, o, start, s);
    var r := AllRounds(v, o, s);
    if |r.rounds| >= 2 {
      TwoEmpty(r.rounds);
    }
    var rows := Counted(r.rounds);
    if rows != [] { assert rows[0].timestamp < start; }
  }

  lemma TwoEmpty(rounds: seq<seq<Row>>)
    requires |rounds| >= 2 && TrailingEmpty(rounds) <= 2
    ensures TrailingEmpty(rounds) == 2 <==> rounds[|rounds| - 1] == [] && rounds[|rounds| - 2] == []
  {
    var n := |rounds|;
    assert TrailingEmpty(rounds[..n - 1])
        == if rounds[n - 2] != [] then 0 else 1 + TrailingEmpty(rounds[..n - 1][..n - 2]);
  }
}
