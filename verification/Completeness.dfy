/** What a deep backfill counts and what it passes over: exactly which of the
    messages that lie between its start and its end are in its count. */
module Completeness {
  import opened Bytes
  import opened Common
  import opened Backfill

  /** The query whose page ended a probe, if one did. */
  function Answer(v: Service, n: nat, oldest: int, limit: nat, probes: nat): (q: Option<nat>)
    decreases probes
  {
    if probes == 0 then None
    else
      match v.reply(n, oldest, limit)
      case Rows(rows) => if |rows| > 0 then Some(n) else Answer(v, n + 1, oldest, limit, probes - 1)
      case NotAnArray => Answer(v, n + 1, oldest, limit, probes - 1)
  }

  /** The query whose page took a run past timestamp `t`. */
  function PassedAt(v: Service, o: Options, s: Run, t: int): (q: Option<nat>)
    decreases RoundLimit(o.maxRounds) - |s.rounds|
  {
    if s.done || |s.rounds| >= RoundLimit(o.maxRounds) then None
    else
      var r := OneRound(v, o, s);
      if r.oldest <= t < s.oldest then Answer(v, s.next, s.oldest, o.count + 20, o.probes) else PassedAt(v, o, r, t)
  }

  /** `t` is the timestamp some round's messages reach down to. */
  ghost predicate Boundary(rounds: seq<seq<Row>>, t: int) {
    exists i :: 0 <= i < |rounds| && rounds[i] != [] && MinTime(rounds[i]) == t
  }

  // ----- one round -----

  lemma {:induction false} AnswerIsPage(v: Service, n: nat, oldest: int, limit: nat, probes: nat)
    requires Honest(v)
    ensures var (got, next), q := Probe(v, n, oldest, limit, probes), Answer(v, n, oldest, limit, probes);
            && (q.None? <==> got == [])
            && (q.Some? ==> n <= q.value < next && IsPage(v.store(q.value), oldest, Least(limit, PAGE), got))
    decreases probes
  {
    if probes > 0 {
      var reply := v.reply(n, oldest, limit);
      if !(reply.Rows? && |reply.rows| > 0) {
        hide Honest;
        AnswerIsPage(v, n + 1, oldest, limit, probes - 1);
      }
    }
  }

  /** A page has all that its store holds down to its last timestamp, where it may be
      cut among ties. */
  lemma InPage(s: set<Row>, before: int, limit: nat, page: seq<Row>, x: Row)
    requires IsPage(s, before, limit, page) && page != [] && MinTime(page) <= x.timestamp < before
    ensures x in page ==> x in s
    ensures x in s && x !in page ==> x.timestamp == MinTime(page) && !DistinctTimes(s)
    ensures exists y :: y in s && y.timestamp == MinTime(page)
  {
    var i :| 0 <= i < |page| && MinTime(page) == page[i].timestamp;
    assert page[i] in Older(s, before);
    if x in s && x !in page {
      assert x in Older(s, before) && x != page[i];
    }
  }

  // ----- whole runs -----

  /** What later rounds bring is older than where they start: of the messages from
      there on up, what is counted stays, and so does every boundary. */
  lemma {:induction false} LaterRoundsAreOlder(v: Service, o: Options, start: int, s: Run, x: Row)
    requires Honest(v) && Grows(v) && KeptSoFar(v, start, s) && s.oldest <= x.timestamp
    ensures x in Counted(AllRounds(v, o, s).rounds) <==> x in Counted(s.rounds)
    ensures s.rounds <= AllRounds(v, o, s).rounds
    decreases RoundLimit(o.maxRounds) - |s.rounds|
  {
    hide Honest, Grows, KeptSoFar, OneRound, RoundLimit;
    if !s.done && |s.rounds| < RoundLimit(o.maxRounds) {
      RoundKeeps(v, o, start, s);
      AfterRound(v, o, s);
      ProbeIsOlder(v, s.next, s.oldest, o.count + 20, o.probes);
      LaterRoundsAreOlder(v, o, start, OneRound(v, o, s), x);
    }
  }

  /** What is said of a message `x` and the query `q` at which a run passed it. */
  ghost predicate Settled(v: Service, rounds: seq<seq<Row>>, x: Row, q: Option<nat>, n: nat) {
    && q.Some? && q.value >= n
    && (x in Counted(rounds) ==> x in v.store(q.value))
    && (x in v.store(q.value) && x !in Counted(rounds) ==>
          Boundary(rounds, x.timestamp) && !DistinctTimes(v.store(q.value)))
    && (exists y :: y in v.store(q.value) && y.timestamp <= x.timestamp)
  }

  lemma {:induction false} RunSettles(v: Service, o: Options, start: int, s: Run, x: Row)
    requires Honest(v) && Grows(v) && KeptSoFar(v, start, s)
    requires AllRounds(v, o, s).oldest <= x.timestamp < s.oldest
    ensures Settled(v, AllRounds(v, o, s).rounds, x, PassedAt(v, o, s, x.timestamp), s.next)
    decreases RoundLimit(o.maxRounds) - |s.rounds|
  {
    hide Honest, Grows, KeptSoFar, OneRound, RoundLimit, Settled;
    assert !s.done && |s.rounds| < RoundLimit(o.maxRounds);
    var r := OneRound(v, o, s);
    RoundKeeps(v, o, start, s);
    if r.oldest <= x.timestamp {
      PassingRound(v, o, start, s, x);
    } else {
      RunSettles(v, o, start, r, x);
      RoundGoesOn(v, o, start, s);
      SettledLater(v, AllRounds(v, o, s).rounds, x, PassedAt(v, o, s, x.timestamp), s.next, r.next);
    }
  }

  lemma SettledLater(v: Service, rounds: seq<seq<Row>>, x: Row, q: Option<nat>, n: nat, m: nat)
    requires Settled(v, rounds, x, q, m) && n <= m
    ensures Settled(v, rounds, x, q, n)
  {}

  lemma RoundGoesOn(v: Service, o: Options, start: int, s: Run)
    requires Honest(v) && Grows(v)
    ensures OneRound(v, o, s).next >= s.next
  {
    hide Honest, Grows, Probe;
    ProbeIsOlder(v, s.next, s.oldest, o.count + 20, o.probes);
  }

  lemma PassingRound(v: Service, o: Options, start: int, s: Run, x: Row)
    requires Honest(v) && Grows(v) && KeptSoFar(v, start, s) && KeptSoFar(v, start, OneRound(v, o, s))
    requires OneRound(v, o, s).oldest <= x.timestamp < s.oldest
    requires !s.done && |s.rounds| < RoundLimit(o.maxRounds)
    ensures Settled(v, AllRounds(v, o, s).rounds, x, PassedAt(v, o, s, x.timestamp), s.next)
  {
    hide Honest, Grows, OneRound, RoundLimit, IsPage, DistinctTimes, Probe, Answer;
    var (got, next) := Probe(v, s.next, s.oldest, o.count + 20, o.probes);
    var q := Answer(v, s.next, s.oldest, o.count + 20, o.probes);
    AnswerIsPage(v, s.next, s.oldest, o.count + 20, o.probes);
    AfterRound(v, o, s);
    InPage(v.store(q.value), s.oldest, Least(o.count + 20, PAGE), got, x);
    LaterRoundsAreOlder(v, o, start, OneRound(v, o, s), x);
    var rounds := AllRounds(v, o, s).rounds;
    assert rounds[|s.rounds|] == got;
  }

  /** The exact account of a run: a message between its start and its end is counted
      if and only if it was stored by the query whose page took the run past it. Only
      with a tie, in that store, at the very timestamp a round stopped at, may it have
      been stored and missed. */
  lemma CountedIffThere(v: Service, o: Options, start: int, n: nat, x: Row)
    requires Honest(v) && Grows(v)
    requires AllRounds(v, o, Begin(start, n)).oldest <= x.timestamp < start
    ensures var rounds := AllRounds(v, o, Begin(start, n)).rounds;
            var q := PassedAt(v, o, Begin(start, n), x.timestamp);
            && q.Some? && q.value >= n
            && (x in Counted(rounds) ==> x in v.store(q.value))
            && (DistinctTimes(v.store(q.value)) || !Boundary(rounds, x.timestamp) ==>
                  (x in Counted(rounds) <==> x in v.store(q.value)))
  {
    hide Honest, Grows, OneRound, DistinctTimes, Boundary;
    assert Counted([]) == [];
    RunSettles(v, o, start, Begin(start, n), x);
  }

  /** Of the messages there at the first probe, only ties are missed. */
  lemma OnlyTiesAreMissed(v: Service, o: Options, start: int, n: nat, x: Row)
    requires Honest(v) && Grows(v) && x in v.store(n)
    requires AllRounds(v, o, Begin(start, n)).oldest <= x.timestamp < start
    ensures var rounds := AllRounds(v, o, Begin(start, n)).rounds;
            && (x in Counted(rounds) || Boundary(rounds, x.timestamp))
            && ((forall m: nat :: DistinctTimes(v.store(m))) ==> x in Counted(rounds))
  {
    hide Honest, AllRounds, PassedAt, DistinctTimes, Boundary;
    CountedIffThere(v, o, start, n, x);
    assert v.store(n) <= v.store(PassedAt(v, o, Begin(start, n), x.timestamp).value);
  }

  // ----- when nothing is missed -----

  /** From query `n` on, whatever arrives below `start` is older than all that is
      stored by then. */
  ghost predicate ArrivesInOrder(v: Service, n: nat, start: int) {
    forall k: nat, m: nat, x, y ::
      n <= k <= m && x in v.store(m) && x !in v.store(k) && x.timestamp < start && y in v.store(k) ==>
        x.timestamp < y.timestamp
  }

  /** If history arrives newest first and no two messages share a timestamp, every
      message ever stored between the end and the start of a run is counted. */
  lemma InOrderMissesNothing(v: Service, o: Options, start: int, n: nat, m: nat, x: Row)
    requires Honest(v) && Grows(v) && ArrivesInOrder(v, n, start) && (forall k: nat :: DistinctTimes(v.store(k)))
    requires x in v.store(m) && AllRounds(v, o, Begin(start, n)).oldest <= x.timestamp < start
    ensures x in Counted(AllRounds(v, o, Begin(start, n)).rounds)
  {
    hide Honest, AllRounds, PassedAt, DistinctTimes, Boundary;
    assert Settled(v, AllRounds(v, o, Begin(start, n)).rounds, x, PassedAt(v, o, Begin(start, n), x.timestamp), n) by {
      hide Settled, Grows, ArrivesInOrder;
      assert Counted([]) == [];
      RunSettles(v, o, start, Begin(start, n), x);
    }
    var q := PassedAt(v, o, Begin(start, n), x.timestamp).value;
    var y :| y in v.store(q) && y.timestamp <= x.timestamp;
    assert m <= q ==> v.store(m) <= v.store(q);
    assert x in v.store(q);
  }

  /** In particular if the store gains nothing below the start once probing begins. */
  lemma QuietStoreMissesNothing(v: Service, o: Options, start: int, n: nat, m: nat, x: Row)
    requires Honest(v) && Grows(v) && (forall k: nat :: DistinctTimes(v.store(k)))
    requires forall k: nat :: k >= n ==> Older(v.store(k), start) == Older(v.store(n), start)
    requires x in v.store(m) && AllRounds(v, o, Begin(start, n)).oldest <= x.timestamp < start
    ensures x in Counted(AllRounds(v, o, Begin(start, n)).rounds)
  {
    hide Honest, Grows, AllRounds, DistinctTimes;
    forall k: nat, m: nat, x | n <= k <= m && x in v.store(m) && x.timestamp < start
      ensures x in v.store(k)
    {
      assert x in Older(v.store(m), start);
      assert x in Older(v.store(k), start);
    }
    InOrderMissesNothing(v, o, start, n, m, x);
  }

  // ----- runs that bring one page and then nothing -----

  const DEFAULTS := Options(50, 8, 6)

  lemma {:induction false} ProbesBringNothing(list: nat -> seq<Row>, n: nat, oldest: int, limit: nat, probes: nat)
    requires forall m: nat :: m >= n ==> OlderRows(list(m), oldest) == []
    ensures Probe(ListService(list), n, oldest, limit, probes) == ([], n + probes)
    decreases probes
  {
    hide ListService, OlderRows;
    if probes > 0 {
      ListReply(list, n, oldest, limit);
      ProbesBringNothing(list, n + 1, oldest, limit, probes - 1);
    }
  }

  lemma QuietRound(list: nat -> seq<Row>, s: Run)
    requires forall m: nat :: m >= s.next ==> OlderRows(list(m), s.oldest) == []
    ensures OneRound(ListService(list), DEFAULTS, s)
         == s.(stale := s.stale + 1, rounds := s.rounds + [[]], next := s.next + 6, done := s.stale + 1 >= 2)
  {
    hide Probe, ListService, OlderRows;
    ProbesBringNothing(list, s.next, s.oldest, 70, 6);
  }

  lemma ThreeRounds(v: Service, o: Options, a: Run, b: Run, c: Run, d: Run)
    requires o.maxRounds == 8 && |a.rounds| == 0 && |b.rounds| == 1 && |c.rounds| == 2
    requires !a.done && !b.done && !c.done && d.done
    requires OneRound(v, o, a) == b && OneRound(v, o, b) == c && OneRound(v, o, c) == d
    ensures AllRounds(v, o, a) == d
  {
    hide OneRound;
    assert AllRounds(v, o, d) == d;
    assert AllRounds(v, o, c) == d;
    assert AllRounds(v, o, b) == d;
  }

  /** After one page two empty rounds end the run. */
  lemma OneRoundThenQuiet(list: nat -> seq<Row>, a: Run, b: Run)
    requires OneRound(ListService(list), DEFAULTS, a) == b && |a.rounds| == 0 && |b.rounds| == 1
    requires !a.done && !b.done && b.stale == 0
    requires forall m: nat :: m >= b.next ==> OlderRows(list(m), b.oldest) == []
    ensures AllRounds(ListService(list), DEFAULTS, a)
         == b.(stale := 2, rounds := b.rounds + [[], []], next := b.next + 12, done := true)
  {
    hide OneRound, OlderRows;
    var c := b.(stale := 1, rounds := b.rounds + [[]], next := b.next + 6);
    QuietRound(list, b);
    QuietRound(list, c);
    assert b.rounds + [[]] + [[]] == b.rounds + [[], []];
    ThreeRounds(ListService(list), DEFAULTS, a, b, c, OneRound(ListService(list), DEFAULTS, c));
  }

  // ----- a run that misses a late arrival -----

  function LateList(n: nat): (rows: seq<Row>) {
    if n == 0 then [Row("a", 2)]
    else if n == 1 then [Row("a", 2), Row("c", 0)]
    else [Row("a", 2), Row("b", 1), Row("c", 0)]
  }

  lemma LateIsSorted(n: nat)
    ensures Distinct(LateList(n)) && NewestFirst(LateList(n)) && DistinctTimes(RowSet(LateList(n)))
  {}

  lemma LateGrows(n: nat, m: nat)
    ensures n <= m ==> RowSet(LateList(n)) <= RowSet(LateList(m))
    ensures forall x, y :: x in RowSet(LateList(n)) && y in RowSet(LateList(n)) && x.id == y.id ==> x == y
  {
    var rows := LateList(m);
    assert rows[0] in rows && rows[|rows| - 1] in rows;
  }

  lemma LateIsFair()
    ensures Honest(ListService(LateList)) && Grows(ListService(LateList))
    ensures forall n: nat :: DistinctTimes(ListService(LateList).store(n))
    ensures forall n: nat :: n >= 2 ==> Row("b", 1) in ListService(LateList).store(n)
  {
    hide ListService, Honest, LateList, RowSet, Distinct, NewestFirst, DistinctTimes;
    forall n: nat
      ensures Distinct(LateList(n)) && NewestFirst(LateList(n)) && DistinctTimes(RowSet(LateList(n)))
      ensures ListService(LateList).store(n) == RowSet(LateList(n))
      ensures n >= 2 ==> Row("b", 1) in RowSet(LateList(n))
    {
      LateIsSorted(n);
      ListReply(LateList, n, 0, 0);
      LateHasB(n);
    }
    forall n: nat, m: nat
      ensures n <= m ==> RowSet(LateList(n)) <= RowSet(LateList(m))
      ensures forall x, y :: x in RowSet(LateList(n)) && y in RowSet(LateList(n)) && x.id == y.id ==> x == y
    {
      LateGrows(n, m);
    }
    ListServiceIsHonest(LateList);
  }

  lemma LateHasB(n: nat)
    ensures n >= 2 ==> Row("b", 1) in RowSet(LateList(n))
  {
    if n >= 2 { assert LateList(n)[1] == Row("b", 1); }
  }

  lemma LateOlder(n: nat)
    ensures OlderRows(LateList(n), 0) == []
  {
    NoneOlder(LateList(n), 0);
  }

  lemma LateStart()
    ensures var v := ListService(LateList);
            && OldestFrom(v, 0, MAX_SAFE_INTEGER, None, MAX_PAGES) == (Some(2), 1)
            && OneRound(v, DEFAULTS, Begin(2, 1)) == Run(0, 1, 0, [[Row("c", 0)]], 2, false)
  {
    hide ListService;
    ListReply(LateList, 0, MAX_SAFE_INTEGER, PAGE);
    assert ListPage(LateList(0), MAX_SAFE_INTEGER, PAGE) == [Row("a", 2)];
    ListReply(LateList, 1, 2, 70);
    var older := LateList(1)[1..];
    assert older == [Row("c", 0)] && OlderRows(older, 2) == older;
    assert ListPage(LateList(1), 2, 70) == [Row("c", 0)];
    assert Probe(ListService(LateList), 1, 2, 70, 6) == ([Row("c", 0)], 2);
  }

  /** A message that arrives above what the run has reached is missed for good: with
      the default options and all timestamps distinct, the message at 1 is stored one
      query too late, and the start is reported as reached. */
  lemma LateArrivalsAreSkipped()
    ensures var v := ListService(LateList);
            && Honest(v) && Grows(v) && (forall n: nat :: DistinctTimes(v.store(n)))
            && (forall n: nat :: n >= 2 ==> Row("b", 1) in v.store(n))
            && BackfillResult(v, DEFAULTS, 0) == Some(Result(3, 1, 2, 0, true))
            && Counted(AllRounds(v, DEFAULTS, Begin(2, 1)).rounds) == [Row("c", 0)]
  {
    hide Honest, Grows, OneRound, ListService, LateList, AllRounds, OldestFrom, DistinctTimes, OlderRows;
    LateIsFair();
    LateStart();
    forall n: nat
      ensures OlderRows(LateList(n), 0) == []
    {
      LateOlder(n);
    }
    OneRoundThenQuiet(LateList, Begin(2, 1), Run(0, 1, 0, [[Row("c", 0)]], 2, false));
    CountedOne([Row("c", 0)]);
  }

  lemma CountedOne(got: seq<Row>)
    ensures Counted([got] + [[], []]) == got
  {
    var r := [got] + [[], []];
    assert r[..2] == [got, []] && r[..2][..1] == [got] && [got][..0] == [];
    assert Counted([got]) == [] + got;
    assert Counted(r[..2]) == got + [];
  }

  // ----- a run that misses a tie -----

    /** A message at 1, then 71 older ones that all have timestamp 0. */
  function TiedRow(i: nat): (r: Row) { Row(seq(i, _ => 'x'), if i == 0 then 1 else 0) }

  function TiedList(n: nat): (rows: seq<Row>) {
    if n == 0 then [TiedRow(0)] else seq(72, i requires 0 <= i < 72 => TiedRow(i))
  }

  /** As much of it as one round asks for. */
  function TiedPage(): (rows: seq<Row>)
    ensures |rows| == 70
  {
    seq(70, i requires 0 <= i < 70 => TiedRow(i + 1))
  }

  lemma TiedRowsDiffer(i: nat, j: nat)
    requires i != j
    ensures TiedRow(i).id != TiedRow(j).id
  {
    assert |TiedRow(i).id| == i && |TiedRow(j).id| == j;
  }

  lemma TiedIsSorted(n: nat)
    ensures Distinct(TiedList(n)) && NewestFirst(TiedList(n))
  {
    forall i, j | 0 <= i < j < |TiedList(n)|
      ensures TiedList(n)[i] != TiedList(n)[j]
    {
      TiedRowsDiffer(i, j);
    }
  }

  lemma TiedIsFair()
    ensures Honest(ListService(TiedList)) && Grows(ListService(TiedList))
  {
    hide ListPage, Honest;
    var v := ListService(TiedList);
    forall n: nat
      ensures Distinct(TiedList(n)) && NewestFirst(TiedList(n))
    {
      TiedIsSorted(n);
    }
    ListServiceIsHonest(TiedList);
    forall n: nat, x, y | x in v.store(n) && y in v.store(n) && x.id == y.id
      ensures x == y
    {
      var i :| 0 <= i < |TiedList(n)| && TiedList(n)[i] == x;
      var j :| 0 <= j < |TiedList(n)| && TiedList(n)[j] == y;
      if i != j { TiedRowsDiffer(i, j); }
    }
    assert TiedList(1)[0] == TiedRow(0);
  }

  lemma TiedOlder(n: nat)
    requires n > 0
    ensures OlderRows(TiedList(n), 1) == TiedList(n)[1..] && OlderRows(TiedList(n), 0) == []
  {
    var rows := TiedList(n);
    assert rows[0].timestamp == 1 && rows[1..][0].timestamp == 0;
    assert OlderRows(rows[1..], 1) == rows[1..];
    NoneOlder(rows, 0);
  }

  lemma TiedReply(n: nat)
    requires n > 0
    ensures var v := ListService(TiedList);
            v.reply(n, 1, 70) == Rows(TiedPage())
  {
    hide OlderRows, ListService;
    TiedOlder(n);
    ListReply(TiedList, n, 1, 70);
    assert TiedList(n)[1..][..70] == TiedPage();
  }

  lemma TiedRound()
    ensures OneRound(ListService(TiedList), DEFAULTS, Begin(1, 1)) == Run(0, 70, 0, [TiedPage()], 2, false)
  {
    hide ListService, TiedList, Probe, MinTime, TiedPage;
    ProbeHits(1, 6);
    TiedPageMin();
    assert [] + [TiedPage()] == [TiedPage()];
  }

  lemma TiedPageMin()
    ensures MinTime(TiedPage()) == 0
  {
    hide MinTime;
    var i :| 0 <= i < |TiedPage()| && MinTime(TiedPage()) == TiedPage()[i].timestamp;
  }

  lemma ProbeHits(n: nat, probes: nat)
    requires n > 0 && probes > 0
    ensures Probe(ListService(TiedList), n, 1, 70, probes) == (TiedPage(), n + 1)
  {
    hide ListService;
    TiedReply(n);
  }

  lemma TiedStart()
    ensures var v := ListService(TiedList);
            && OldestFrom(v, 0, MAX_SAFE_INTEGER, None, MAX_PAGES) == (Some(1), 1)
            && |Older(v.store(1), 1)| == 71
  {
    hide ListService;
    ListReply(TiedList, 0, MAX_SAFE_INTEGER, PAGE);
    assert ListPage(TiedList(0), MAX_SAFE_INTEGER, PAGE) == [TiedRow(0)];
    ListReply(TiedList, 1, 0, 0);
    TiedIsSorted(1);
    OlderIsSuffix(TiedList(1), 1);
    TiedOlder(1);
    DistinctCount(TiedList(1)[1..]);
  }

  /** Ties cut from a page are missed for good: with the default options, 71 messages
      that arrive with one timestamp are counted as 70, and the start is reported as
      reached. */
  lemma TiesAreSkipped()
    ensures var v := ListService(TiedList);
            && Honest(v) && Grows(v) && |Older(v.store(1), 1)| == 71
            && BackfillResult(v, DEFAULTS, 0) == Some(Result(3, 70, 1, 0, true))
  {
    hide Honest, Grows, OneRound, ListService, TiedList, TiedPage, AllRounds, OldestFrom;
    TiedIsFair();
    TiedStart();
    var got := TiedPage();
    TiedRound();
    forall n: nat | n >= 2
      ensures OlderRows(TiedList(n), 0) == []
    {
      TiedOlder(n);
    }
    OneRoundThenQuiet(TiedList, Begin(1, 1), Run(0, 70, 0, [got], 2, false));
  }
}
