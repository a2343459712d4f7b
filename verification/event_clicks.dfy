/** Event interest: click batches with a limit of twelve per source, safe to retry. */
module EventClicks {
  const FULL_HEART := 12
  /** Clock readings are in microseconds; a row lives for 90 days. */
  const LIFETIME := 90 * 86400 * 1_000_000

  type Name = string

  datatype Row = Row(event: Name, batch: Name, source: Name, clicks: nat, expiresAt: int)

  datatype Reading = Reading(taps: nat, count: nat)

  function Min(a: nat, b: nat): nat {
    if a < b then a else b
  }

  // ---------- the statements ----------

  /** The clicks of an event that are still alive, of one source or of all. */
  function Count(rows: seq<Row>, event: Name, now: int): nat {
    if rows == [] then 0
    else (if rows[0].event == event && rows[0].expiresAt > now then rows[0].clicks else 0) + Count(rows[1..], event, now)
  }

  function Taps(rows: seq<Row>, event: Name, source: Name, now: int): nat {
    Count(OfSource(rows, source), event, now)
  }

  function OfSource(rows: seq<Row>, source: Name): seq<Row> {
    if rows == [] then []
    else (if rows[0].source == source then [rows[0]] else []) + OfSource(rows[1..], source)
  }

  function Purge(rows: seq<Row>, event: Name, now: int): seq<Row> {
    if rows == [] then []
    else (if rows[0].event == event && rows[0].expiresAt <= now then [] else [rows[0]]) + Purge(rows[1..], event, now)
  }

  predicate Taken(rows: seq<Row>, event: Name, batch: Name) {
    exists i :: 0 <= i < |rows| && rows[i].event == event && rows[i].batch == batch
  }

  /** What the request form admits. */
  type Clicks = n: nat | 1 <= n <= 1000 witness 1

  datatype Save = Save(event: Name, source: Name, clicks: Clicks, batch: Name, at: int)

  function Accepted(rows: seq<Row>, s: Save): nat {
    Min(s.clicks, FULL_HEART - Min(FULL_HEART, Taps(rows, s.event, s.source, s.at)))
  }

  /** The table after a save. */
  function Saved(rows: seq<Row>, s: Save): seq<Row> {
    var kept := Purge(rows, s.event, s.at);
    if Accepted(kept, s) == 0 || Taken(kept, s.event, s.batch) then kept
    else kept + [Row(s.event, s.batch, s.source, Accepted(kept, s), s.at + LIFETIME)]
  }

  class EventInterest {
    var rows: seq<Row>

    constructor ()
      ensures rows == []
    {
      rows := [];
    }

    /** A read without a source counts no taps. */
    function Read(event: Name, source: Name, now: int): Reading
      reads this
    {
      Reading(Taps(rows, event, source, now), Count(rows, event, now))
    }

    /** One transaction under the event's advisory lock. */
    method Save(s: Save) returns (r: Reading)
      modifies this
      ensures rows == Saved(old(rows), s)
      ensures r.taps == Taps(rows, s.event, s.source, s.at) && r.count == Count(rows, s.event, s.at)
    {
      rows := Purge(rows, s.event, s.at);
      var current := Read(s.event, s.source, s.at);
      var left := if current.taps < 12 then 12 - current.taps else 0;
      var accepted := if s.clicks < left then s.clicks else left;
      if accepted == 0 { return current; }
      if !Taken(rows, s.event, s.batch) {
        rows := rows + [Row(s.event, s.batch, s.source, accepted, s.at + LIFETIME)];
      }
      r := Read(s.event, s.source, s.at);
    }
  }

  function Run(saves: seq<Save>): seq<Row> {
    if saves == [] then [] else Saved(Run(saves[..|saves| - 1]), saves[|saves| - 1])
  }

  // ---------- sums ----------

  lemma Assoc<T>(a: seq<T>, b: seq<T>, c: seq<T>)
    ensures a + (b + c) == (a + b) + c
  {
  }

  lemma {:induction false} CountOfConcat(a: seq<Row>, b: seq<Row>, event: Name, now: int)
    ensures Count(a + b, event, now) == Count(a, event, now) + Count(b, event, now)
  {
    if a == [] { assert a + b == b; }
    else {
      assert (a + b)[1..] == a[1..] + b;
      CountOfConcat(a[1..], b, event, now);
    }
  }

  lemma {:induction false} OfSourceOfConcat(a: seq<Row>, b: seq<Row>, source: Name)
    ensures OfSource(a + b, source) == OfSource(a, source) + OfSource(b, source)
  {
    if a == [] { assert a + b == b; }
    else {
      assert (a + b)[1..] == a[1..] + b;
      OfSourceOfConcat(a[1..], b, source);
      Assoc(if a[0].source == source then [a[0]] else [], OfSource(a[1..], source), OfSource(b, source));
    }
  }

  /** What one more row adds. */
  lemma TapsOfAppend(rows: seq<Row>, r: Row, event: Name, source: Name, now: int)
    ensures Taps(rows + [r], event, source, now) == Taps(rows, event, source, now) +
                                                    if r.source == source && r.event == event && r.expiresAt > now then r.clicks else 0
  {
    OfSourceOfConcat(rows, [r], source);
    assert OfSource([r], source) == if r.source == source then [r] else [];
    CountOfConcat(OfSource(rows, source), OfSource([r], source), event, now);
  }

  lemma {:induction false} PurgedIsUncounted(rows: seq<Row>, event: Name, other: Name, at: int, now: int)
    requires at <= now || other != event
    ensures Count(Purge(rows, event, at), other, now) == Count(rows, other, now)
  {
    if rows != [] {
      PurgedIsUncounted(rows[1..], event, other, at, now);
      CountOfConcat(if rows[0].event == event && rows[0].expiresAt <= at then [] else [rows[0]], Purge(rows[1..], event, at), other, now);
    }
  }

  lemma {:induction false} PurgeOfConcat(a: seq<Row>, b: seq<Row>, event: Name, now: int)
    ensures Purge(a + b, event, now) == Purge(a, event, now) + Purge(b, event, now)
  {
    if a == [] { assert a + b == b; }
    else {
      assert (a + b)[1..] == a[1..] + b;
      PurgeOfConcat(a[1..], b, event, now);
      var first := if a[0].event == event && a[0].expiresAt <= now then [] else [a[0]];
      Assoc(first, Purge(a[1..], event, now), Purge(b, event, now));
    }
  }

  lemma {:induction false} PurgeOfSource(rows: seq<Row>, event: Name, source: Name, now: int)
    ensures OfSource(Purge(rows, event, now), source) == Purge(OfSource(rows, source), event, now)
  {
    if rows != [] {
      PurgeOfSource(rows[1..], event, source, now);
      var head := if rows[0].event == event && rows[0].expiresAt <= now then [] else [rows[0]];
      var first := if rows[0].source == source then [rows[0]] else [];
      OfSourceOfConcat(head, Purge(rows[1..], event, now), source);
      PurgeOfConcat(first, OfSource(rows[1..], source), event, now);
      assert [rows[0]][1..] == [];
    }
  }

  lemma {:induction false} PurgeKeeps(rows: seq<Row>, event: Name, now: int)
    ensures forall r :: r in Purge(rows, event, now) <==> r in rows && !(r.event == event && r.expiresAt <= now)
  {
    if rows != [] {
      PurgeKeeps(rows[1..], event, now);
      assert rows == [rows[0]] + rows[1..];
    }
  }

  lemma {:induction false} NothingToPurge(rows: seq<Row>, event: Name, now: int)
    requires forall r :: r in rows ==> r.expiresAt > now
    ensures Purge(rows, event, now) == rows
  {
    if rows != [] { NothingToPurge(rows[1..], event, now); }
  }

  lemma TakenIs(rows: seq<Row>, event: Name, batch: Name)
    ensures Taken(rows, event, batch) <==> exists r :: r in rows && r.event == event && r.batch == batch
  {
    if r :| r in rows && r.event == event && r.batch == batch {
      var i :| 0 <= i < |rows| && rows[i] == r;
    }
  }

  // ---------- one save ----------

  /** Repeating a save whose row is alive changes nothing that is ever read, whoever repeats it, with any clicks. */
  lemma {:induction false} RepeatChangesNothing(rows: seq<Row>, s: Save, row: Row, event: Name, source: Name, now: int)
    requires row in rows && row.event == s.event && row.batch == s.batch && row.expiresAt > s.at
    requires s.at <= now
    ensures forall r :: r in Saved(rows, s) <==> r in rows && !(r.event == s.event && r.expiresAt <= s.at)
    ensures Taps(Saved(rows, s), event, source, now) == Taps(rows, event, source, now)
    ensures Count(Saved(rows, s), event, now) == Count(rows, event, now)
  {
    PurgeKeeps(rows, s.event, s.at);
    TakenIs(Purge(rows, s.event, s.at), s.event, s.batch);
    PurgedIsUncounted(rows, s.event, event, s.at, now);
    PurgeOfSource(rows, s.event, source, s.at);
    PurgedIsUncounted(OfSource(rows, source), s.event, event, s.at, now);
  }

  /** A click batch counts for 90 days from its save on, and not a moment longer. */
  lemma {:induction false} BatchLives(rows: seq<Row>, s: Save, source: Name, now: int)
    requires s.at <= now && !Taken(Purge(rows, s.event, s.at), s.event, s.batch)
    ensures var accepted := Min(s.clicks, 12 - Min(12, Taps(rows, s.event, s.source, s.at)));
      Taps(Saved(rows, s), s.event, source, now) ==
      Taps(rows, s.event, source, now) +
        if source == s.source && now < s.at + 90 * 24 * 3600 * 1_000_000 then accepted else 0
  {
    var kept := Purge(rows, s.event, s.at);
    PurgeOfSource(rows, s.event, source, s.at);
    PurgeOfSource(rows, s.event, s.source, s.at);
    PurgedIsUncounted(OfSource(rows, source), s.event, s.event, s.at, now);
    PurgedIsUncounted(OfSource(rows, s.source), s.event, s.event, s.at, s.at);
    TapsOfAppend(kept, Row(s.event, s.batch, s.source, Accepted(kept, s), s.at + LIFETIME), s.event, source, now);
  }

  /** What a save of a new batch adds: its clicks, cut at the twelfth; nobody else's taps change. */
  lemma {:induction false} SaveAdds(rows: seq<Row>, s: Save, source: Name)
    requires Taps(rows, s.event, s.source, s.at) <= FULL_HEART
    requires !Taken(Purge(rows, s.event, s.at), s.event, s.batch)
    ensures Taps(Saved(rows, s), s.event, source, s.at) ==
            if source == s.source then Min(12, Taps(rows, s.event, source, s.at) + s.clicks)
            else Taps(rows, s.event, source, s.at)
  {
    var kept := Purge(rows, s.event, s.at);
    PurgeOfSource(rows, s.event, source, s.at);
    PurgeOfSource(rows, s.event, s.source, s.at);
    PurgedIsUncounted(OfSource(rows, source), s.event, s.event, s.at, s.at);
    PurgedIsUncounted(OfSource(rows, s.source), s.event, s.event, s.at, s.at);
    TapsOfAppend(kept, Row(s.event, s.batch, s.source, Accepted(kept, s), s.at + LIFETIME), s.event, source, s.at);
  }

  // ---------- at most twelve, in every run ----------

  lemma {:induction false} EarlierCountsMore(rows: seq<Row>, event: Name, now: int, floor: int)
    ensures floor <= now ==> Count(rows, event, now) <= Count(rows, event, floor)
    ensures (forall r :: r in rows && r.event == event ==> r.expiresAt > now) ==> Count(rows, event, floor) <= Count(rows, event, now)
  {
    if rows != [] { EarlierCountsMore(rows[1..], event, now, floor); }
  }

  lemma {:induction false} InOfSource(rows: seq<Row>, source: Name)
    ensures forall r :: r in OfSource(rows, source) <==> r in rows && r.source == source
  {
    if rows != [] {
      InOfSource(rows[1..], source);
      assert rows == [rows[0]] + rows[1..];
    }
  }

  lemma {:induction false} PurgeCountsLess(rows: seq<Row>, event: Name, other: Name, at: int, now: int)
    ensures Count(Purge(rows, event, at), other, now) <= Count(rows, other, now)
  {
    if rows != [] {
      PurgeCountsLess(rows[1..], event, other, at, now);
      CountOfConcat(if rows[0].event == event && rows[0].expiresAt <= at then [] else [rows[0]], Purge(rows[1..], event, at), other, now);
    }
  }

  lemma {:induction false} PurgedReads(rows: seq<Row>, event: Name, other: Name, source: Name, at: int, now: int)
    ensures Taps(Purge(rows, event, at), other, source, now) <= Taps(rows, other, source, now)
    ensures other == event ==> Taps(Purge(rows, event, at), event, source, now) <= Taps(Purge(rows, event, at), event, source, at)
  {
    var kept := Purge(rows, event, at);
    PurgeOfSource(rows, event, source, at);
    PurgeCountsLess(OfSource(rows, source), event, other, at, now);
    PurgeKeeps(rows, event, at);
    InOfSource(kept, source);
    EarlierCountsMore(OfSource(kept, source), event, at, now);
    EarlierCountsMore(OfSource(kept, source), event, now, at);
  }

  lemma TwelveStep(rows: seq<Row>, s: Save, event: Name, source: Name, now: int)
    requires Taps(rows, event, source, now) <= FULL_HEART && Taps(rows, event, source, s.at) <= FULL_HEART
    ensures Taps(Saved(rows, s), event, source, now) <= FULL_HEART
  {
    var kept := Purge(rows, s.event, s.at);
    PurgedReads(rows, s.event, event, source, s.at, now);
    PurgedReads(rows, s.event, event, source, s.at, s.at);
    TapsOfAppend(kept, Row(s.event, s.batch, s.source, Accepted(kept, s), s.at + LIFETIME), event, source, now);
  }

  /**
   * A source never has more than twelve taps on an event, in any run, at whatever moment it is read: with
   * expiry, with shared or repeated batch ids, and even if the clock of one save lies before that of another.
   */
  lemma {:induction false} NeverMoreThanTwelve(saves: seq<Save>, event: Name, source: Name, now: int)
    ensures Taps(Run(saves), event, source, now) <= 12
    decreases |saves|
  {
    if saves != [] {
      var n := |saves| - 1;
      NeverMoreThanTwelve(saves[..n], event, source, now);
      NeverMoreThanTwelve(saves[..n], event, source, saves[n].at);
      TwelveStep(Run(saves[..n]), saves[n], event, source, now);
    }
  }

  // ---------- batches ----------

  datatype Batch = Batch(id: Name, clicks: nat)

  /** The batches a source sent for an event, in the order of the saves. */
  function Sent(saves: seq<Save>, event: Name, source: Name): seq<Batch> {
    if saves == [] then []
    else
      var s := saves[|saves| - 1];
      Sent(saves[..|saves| - 1], event, source) + if s.event == event && s.source == source then [Batch(s.batch, s.clicks)] else []
  }

  function Without(bs: seq<Batch>, id: Name): (r: seq<Batch>)
    ensures |r| <= |bs|
  {
    if bs == [] then [] else (if bs[0].id == id then [] else [bs[0]]) + Without(bs[1..], id)
  }

  predicate HasId(bs: seq<Batch>, id: Name) {
    exists i :: 0 <= i < |bs| && bs[i].id == id
  }

  /** The clicks of the distinct batches in a list: each id counts once, with the clicks it first came with. */
  function DistinctClicks(bs: seq<Batch>): nat
    decreases |bs|
  {
    if bs == [] then 0 else bs[0].clicks + DistinctClicks(Without(bs[1..], bs[0].id))
  }

  lemma {:induction false} WithoutIs(bs: seq<Batch>, id: Name)
    ensures forall b :: b in Without(bs, id) <==> b in bs && b.id != id
  {
    if bs != [] {
      WithoutIs(bs[1..], id);
      assert bs == [bs[0]] + bs[1..];
    }
  }

  lemma {:induction false} WithoutOfConcat(a: seq<Batch>, b: seq<Batch>, id: Name)
    ensures Without(a + b, id) == Without(a, id) + Without(b, id)
  {
    if a == [] { assert a + b == b; }
    else {
      assert (a + b)[1..] == a[1..] + b;
      WithoutOfConcat(a[1..], b, id);
      Assoc(if a[0].id == id then [] else [a[0]], Without(a[1..], id), Without(b, id));
    }
  }

  lemma IdsOfWithout(bs: seq<Batch>, id: Name)
    requires bs != [] && bs[0].id != id
    ensures HasId(Without(bs[1..], bs[0].id), id) <==> HasId(bs, id)
  {
    var rest := Without(bs[1..], bs[0].id);
    WithoutIs(bs[1..], bs[0].id);
    if HasId(bs, id) {
      var i :| 0 <= i < |bs| && bs[i].id == id;
      assert bs[i] == bs[1..][i - 1];
      assert bs[i] in rest;
      var k :| 0 <= k < |rest| && rest[k] == bs[i];
      assert HasId(rest, id);
    }
    if HasId(rest, id) {
      var i :| 0 <= i < |rest| && rest[i].id == id;
      assert rest[i] in bs[1..];
      var k :| 0 <= k < |bs[1..]| && bs[1..][k] == rest[i];
      assert bs[k + 1].id == id;
    }
  }

  /** A batch at the end counts iff it is new. */
  lemma {:induction false} DistinctOfAppend(bs: seq<Batch>, b: Batch)
    ensures DistinctClicks(bs + [b]) == DistinctClicks(bs) + if HasId(bs, b.id) then 0 else b.clicks
    decreases |bs|
  {
    if bs == [] {
      assert [b][1..] == [] && bs + [b] == [b];
    } else {
      var rest := Without(bs[1..], bs[0].id);
      assert (bs + [b])[1..] == bs[1..] + [b];
      WithoutOfConcat(bs[1..], [b], bs[0].id);
      assert [b][1..] == [];
      WithoutIs(bs[1..], bs[0].id);
      if b.id == bs[0].id {
        assert HasId(bs, b.id);
        assert Without([b], bs[0].id) == [];
        assert Without((bs + [b])[1..], bs[0].id) == rest;
      } else {
        DistinctOfAppend(rest, b);
        IdsOfWithout(bs, b.id);
        assert Without([b], bs[0].id) == [b];
        assert Without((bs + [b])[1..], bs[0].id) == rest + [b];
      }
    }
  }

  /** No id comes with two different clicks. */
  ghost predicate SameClicks(bs: seq<Batch>) {
    forall b, c :: b in bs && c in bs && b.id == c.id ==> b == c
  }

  lemma {:induction false} TakeOut(bs: seq<Batch>, b: Batch)
    requires b in bs && SameClicks(bs)
    ensures DistinctClicks(bs) == b.clicks + DistinctClicks(Without(bs, b.id))
    decreases |bs|
  {
    var rest := Without(bs[1..], bs[0].id);
    WithoutIs(bs[1..], bs[0].id);
    assert bs == [bs[0]] + bs[1..];
    if b.id == bs[0].id {
      assert Without(bs, b.id) == rest;
    } else {
      TakeOut(rest, b);
      WithoutIs(bs[1..], b.id);
      WithoutsCommute(bs[1..], bs[0].id, b.id);
      assert Without(bs, b.id) == [bs[0]] + Without(bs[1..], b.id);
      assert Without(bs, b.id)[1..] == Without(bs[1..], b.id);
    }
  }

  lemma {:induction false} WithoutsCommute(bs: seq<Batch>, a: Name, b: Name)
    ensures Without(Without(bs, a), b) == Without(Without(bs, b), a)
  {
    if bs != [] {
      WithoutsCommute(bs[1..], a, b);
      WithoutOfConcat(if bs[0].id == a then [] else [bs[0]], Without(bs[1..], a), b);
      WithoutOfConcat(if bs[0].id == b then [] else [bs[0]], Without(bs[1..], b), a);
    }
  }

  lemma {:induction false} WithoutsAgree(a: seq<Batch>, b: seq<Batch>)
    requires a != [] && SameClicks(a) && forall x :: x in a <==> x in b
    ensures var id := a[0].id;
      SameClicks(Without(a[1..], id)) && forall x :: x in Without(a[1..], id) <==> x in Without(b, id)
  {
    var id := a[0].id;
    WithoutIs(a[1..], id);
    WithoutIs(b, id);
    assert a == [a[0]] + a[1..];
  }

  /** The distinct clicks depend on the set of batches alone. */
  lemma {:induction false} DistinctOfSet(a: seq<Batch>, b: seq<Batch>)
    requires SameClicks(a) && forall x :: x in a <==> x in b
    ensures DistinctClicks(a) == DistinctClicks(b)
    decreases |a|
  {
    if a == [] {
      assert forall x :: x !in b;
    } else {
      assert a[0] in b;
      TakeOut(b, a[0]);
      WithoutsAgree(a, b);
      DistinctOfSet(Without(a[1..], a[0].id), Without(b, a[0].id));
    }
  }

  // ---------- runs without expiry ----------

  /** All saves and the reading fall into one stretch shorter than a row's life. */
  ghost predicate NoExpiry(saves: seq<Save>, start: int, now: int) {
    now < start + LIFETIME && forall i :: 0 <= i < |saves| ==> start <= saves[i].at < start + LIFETIME
  }

  /** No batch id of an event is used by two sources. */
  ghost predicate BatchesUnshared(saves: seq<Save>) {
    forall i, j :: 0 <= i < |saves| && 0 <= j < |saves| && saves[i].event == saves[j].event && saves[i].batch == saves[j].batch ==>
      saves[i].source == saves[j].source
  }

  ghost predicate Fresh(rows: seq<Row>, start: int) {
    forall r :: r in rows ==> r.expiresAt >= start + LIFETIME
  }

  ghost predicate From(rows: seq<Row>, saves: seq<Save>) {
    forall r :: r in rows ==> SentBy(saves, r.event, r.batch, r.source)
  }

  ghost predicate SentBy(saves: seq<Save>, event: Name, batch: Name, source: Name) {
    exists i :: 0 <= i < |saves| && saves[i].event == event && saves[i].batch == batch && saves[i].source == source
  }

  /** A batch that was sent has its row, unless its source was full. */
  ghost predicate KeptOrFull(rows: seq<Row>, saves: seq<Save>, now: int) {
    forall i :: 0 <= i < |saves| ==>
      Taken(rows, saves[i].event, saves[i].batch) || Taps(rows, saves[i].event, saves[i].source, now) == FULL_HEART
  }

  lemma SentByStep(saves: seq<Save>, event: Name, batch: Name, source: Name)
    requires saves != []
    ensures var n := |saves| - 1;
      SentBy(saves, event, batch, source) <==>
      SentBy(saves[..n], event, batch, source) ||
      (saves[n].event == event && saves[n].batch == batch && saves[n].source == source)
  {
    var n := |saves| - 1;
    if SentBy(saves[..n], event, batch, source) {
      var k :| 0 <= k < n && saves[..n][k].event == event && saves[..n][k].batch == batch && saves[..n][k].source == source;
      assert saves[k] == saves[..n][k];
    }
    if SentBy(saves, event, batch, source) {
      var k :| 0 <= k < |saves| && saves[k].event == event && saves[k].batch == batch && saves[k].source == source;
      if k < n { assert saves[..n][k] == saves[k]; }
    }
  }

  lemma HasIdOfAppend(bs: seq<Batch>, b: Batch, id: Name)
    ensures HasId(bs + [b], id) <==> HasId(bs, id) || b.id == id
  {
    if HasId(bs, id) {
      var i :| 0 <= i < |bs| && bs[i].id == id;
      assert (bs + [b])[i].id == id;
    }
    if b.id == id { assert (bs + [b])[|bs|].id == id; }
    if HasId(bs + [b], id) {
      var i :| 0 <= i < |bs + [b]| && (bs + [b])[i].id == id;
      if i < |bs| { assert bs[i].id == id; }
    }
  }

  lemma {:induction false} SentIds(saves: seq<Save>, event: Name, source: Name, id: Name)
    ensures HasId(Sent(saves, event, source), id) <==> SentBy(saves, event, id, source)
    decreases |saves|
  {
    if saves != [] {
      var s := saves[|saves| - 1];
      SentIds(saves[..|saves| - 1], event, source, id);
      SentByStep(saves, event, id, source);
      HasIdOfAppend(Sent(saves[..|saves| - 1], event, source), Batch(s.batch, s.clicks), id);
      if s.event != event || s.source != source {
        assert Sent(saves, event, source) == Sent(saves[..|saves| - 1], event, source);
      }
    }
  }

  /** Without expiry reading a source at any moment of the stretch gives the same, and nothing is purged. */
  lemma {:induction false} FreshReads(rows: seq<Row>, start: int, event: Name, source: Name, a: int, b: int)
    requires Fresh(rows, start) && a < start + LIFETIME && b < start + LIFETIME
    ensures Taps(rows, event, source, a) == Taps(rows, event, source, b)
    ensures Purge(rows, event, a) == rows
  {
    InOfSource(rows, source);
    EarlierCountsMore(OfSource(rows, source), event, a, b);
    EarlierCountsMore(OfSource(rows, source), event, b, a);
    NothingToPurge(rows, event, a);
  }

  lemma FromStep(rows: seq<Row>, saves: seq<Save>)
    requires saves != [] && From(rows, saves[..|saves| - 1])
    requires Purge(rows, saves[|saves| - 1].event, saves[|saves| - 1].at) == rows
    ensures From(Saved(rows, saves[|saves| - 1]), saves)
  {
    var n := |saves| - 1;
    forall r | r in Saved(rows, saves[n]) ensures SentBy(saves, r.event, r.batch, r.source) {
      if r in rows {
        var i :| 0 <= i < n && saves[..n][i].event == r.event && saves[..n][i].batch == r.batch && saves[..n][i].source == r.source;
        assert saves[i].event == r.event;
      } else {
        assert saves[n].event == r.event;
      }
    }
  }

  lemma TakenOfAppend(rows: seq<Row>, r: Row, event: Name, batch: Name)
    ensures Taken(rows + [r], event, batch) <==> Taken(rows, event, batch) || (r.event == event && r.batch == batch)
  {
    TakenIs(rows, event, batch);
    TakenIs(rows + [r], event, batch);
  }

  lemma KeptOrFullStep(rows: seq<Row>, saves: seq<Save>, start: int, now: int)
    requires saves != [] && Fresh(rows, start) && NoExpiry(saves, start, now)
    requires KeptOrFull(rows, saves[..|saves| - 1], now)
    requires forall e, c :: Taps(rows, e, c, now) <= FULL_HEART
    ensures KeptOrFull(Saved(rows, saves[|saves| - 1]), saves, now)
  {
    var n := |saves| - 1;
    var s := saves[n];
    var after := Saved(rows, s);
    FreshReads(rows, start, s.event, s.source, s.at, now);
    var added := Row(s.event, s.batch, s.source, Accepted(rows, s), s.at + LIFETIME);
    forall i | 0 <= i < |saves|
      ensures Taken(after, saves[i].event, saves[i].batch) || Taps(after, saves[i].event, saves[i].source, now) == FULL_HEART
    {
      TapsOfAppend(rows, added, saves[i].event, saves[i].source, now);
      TakenOfAppend(rows, added, saves[i].event, saves[i].batch);
      if i < n { assert saves[..n][i] == saves[i]; }
    }
  }

  lemma {:induction false} RunFacts(saves: seq<Save>, start: int, now: int)
    requires NoExpiry(saves, start, now) && BatchesUnshared(saves)
    ensures Fresh(Run(saves), start) && From(Run(saves), saves) && KeptOrFull(Run(saves), saves, now)
    decreases |saves|
  {
    if saves != [] {
      var n := |saves| - 1;
      var rows, s := Run(saves[..n]), saves[n];
      assert NoExpiry(saves[..n], start, now) && BatchesUnshared(saves[..n]);
      RunFacts(saves[..n], start, now);
      FreshReads(rows, start, s.event, s.source, s.at, now);
      FromStep(rows, saves);
      forall e, c ensures Taps(rows, e, c, now) <= FULL_HEART { NeverMoreThanTwelve(saves[..n], e, c, now); }
      KeptOrFullStep(rows, saves, start, now);
    }
  }

  /** The last save finds its batch taken only if its own source sent it before. */
  lemma TakenMeansSent(rows: seq<Row>, saves: seq<Save>)
    requires saves != [] && From(rows, saves[..|saves| - 1]) && BatchesUnshared(saves)
    ensures var s := saves[|saves| - 1];
      Taken(rows, s.event, s.batch) ==> SentBy(saves[..|saves| - 1], s.event, s.batch, s.source)
  {
    var n := |saves| - 1;
    var s := saves[n];
    if Taken(rows, s.event, s.batch) {
      var k :| 0 <= k < |rows| && rows[k].event == s.event && rows[k].batch == s.batch;
      assert rows[k] in rows;
      var i :| 0 <= i < n && saves[..n][i].event == s.event && saves[..n][i].batch == s.batch && saves[..n][i].source == rows[k].source;
      assert saves[i].source == s.source;
    }
  }

  /** One save in a stretch without expiry, for any source of any event. */
  lemma TapsStep(rows: seq<Row>, s: Save, event: Name, source: Name, start: int, now: int)
    requires Fresh(rows, start) && now < start + LIFETIME && start <= s.at < start + LIFETIME
    requires Taps(rows, event, source, now) <= FULL_HEART
    ensures Taps(Saved(rows, s), event, source, now) ==
            if s.event == event && s.source == source && !Taken(rows, s.event, s.batch)
            then Min(FULL_HEART, Taps(rows, event, source, now) + s.clicks)
            else Taps(rows, event, source, now)
  {
    FreshReads(rows, start, s.event, s.source, s.at, now);
    TapsOfAppend(rows, Row(s.event, s.batch, s.source, Accepted(rows, s), s.at + LIFETIME), event, source, now);
  }

  /**
   * Whatever way saves interleave, repeat and reorder: without expiry and shared batch ids, a source's taps
   * are the clicks of its distinct batches, cut at twelve.
   */
  lemma {:induction false} TapsAreDistinctClicks(saves: seq<Save>, event: Name, source: Name, start: int, now: int)
    requires NoExpiry(saves, start, now) && BatchesUnshared(saves)
    ensures Taps(Run(saves), event, source, now) == Min(12, DistinctClicks(Sent(saves, event, source)))
    decreases |saves|
  {
    if saves != [] {
      var n := |saves| - 1;
      var rows, s := Run(saves[..n]), saves[n];
      TapsAreDistinctClicks(saves[..n], event, source, start, now);
      RunFacts(saves[..n], start, now);
      TapsStep(rows, s, event, source, start, now);
      if s.event == event && s.source == source {
        DistinctOfAppend(Sent(saves[..n], event, source), Batch(s.batch, s.clicks));
        SentIds(saves[..n], event, source, s.batch);
        TakenMeansSent(rows, saves);
        if SentBy(saves[..n], event, s.batch, source) && !Taken(rows, event, s.batch) {
          var i :| 0 <= i < n && saves[..n][i].event == event && saves[..n][i].batch == s.batch && saves[..n][i].source == source;
          assert Taps(rows, event, source, now) == FULL_HEART;
        }
      } else {
        assert Sent(saves, event, source) == Sent(saves[..n], event, source);
      }
    }
  }

  /** Two runs in which each source sent the same batches read the same, in whatever order and however often each came. */
  lemma {:induction false} OrderAndRetriesDoNotMatter(a: seq<Save>, b: seq<Save>, event: Name, source: Name, start: int, now: int)
    requires NoExpiry(a, start, now) && BatchesUnshared(a) && NoExpiry(b, start, now) && BatchesUnshared(b)
    requires SameClicks(Sent(a, event, source))
    requires forall x :: x in Sent(a, event, source) <==> x in Sent(b, event, source)
    ensures Taps(Run(a), event, source, now) == Taps(Run(b), event, source, now)
  {
    TapsAreDistinctClicks(a, event, source, start, now);
    TapsAreDistinctClicks(b, event, source, start, now);
    DistinctOfSet(Sent(a, event, source), Sent(b, event, source));
  }

  /** With a batch id shared between sources it is false: the second source's clicks are lost. */
  lemma SharedBatchLosesClicks()
    ensures var saves := [Save("e", "a", 5, "b", 0), Save("e", "c", 7, "b", 1)];
      Taps(Run(saves), "e", "c", 1) == 0 && DistinctClicks(Sent(saves, "e", "c")) == 7
  {
    var s, t := Save("e", "a", 5, "b", 0), Save("e", "c", 7, "b", 1);
    var saves := [s, t];
    assert saves[..1] == [s] && [s][..0] == [];
    var row := Row("e", "b", "a", 5, LIFETIME);
    assert OfSource([], "a") == [] && Run([]) == [];
    assert Run([s]) == [row];
    assert Purge([row], "e", 1) == [row];
    assert [row][0] == row;
    assert Taken([row], "e", "b");
    assert Run(saves) == [row];
    assert OfSource([row], "c") == [];
    assert Sent([s], "e", "c") == [] by { assert Sent([], "e", "c") == []; }
    assert Sent(saves, "e", "c") == [Batch("b", 7)];
    assert [Batch("b", 7)][1..] == [];
  }

  // ---------- the event's count ----------

  function SumOfTaps(rows: seq<Row>, event: Name, sources: seq<Name>, now: int): nat {
    if sources == [] then 0 else Taps(rows, event, sources[0], now) + SumOfTaps(rows, event, sources[1..], now)
  }

  ghost predicate Distinct(names: seq<Name>) {
    forall i, j :: 0 <= i < j < |names| ==> names[i] != names[j]
  }

  lemma {:induction false} SumOfAppend(rows: seq<Row>, r: Row, event: Name, sources: seq<Name>, now: int)
    requires Distinct(sources)
    ensures SumOfTaps(rows + [r], event, sources, now) == SumOfTaps(rows, event, sources, now) +
                                                          if r.source in sources && r.event == event && r.expiresAt > now then r.clicks else 0
  {
    if sources != [] {
      TapsOfAppend(rows, r, event, sources[0], now);
      SumOfAppend(rows, r, event, sources[1..], now);
      assert sources == [sources[0]] + sources[1..];
    }
  }

  lemma {:induction false} NoRowsNoTaps(event: Name, sources: seq<Name>, now: int)
    ensures SumOfTaps([], event, sources, now) == 0
  {
    if sources != [] { NoRowsNoTaps(event, sources[1..], now); }
  }

  /** The count of an event is the sum of its sources' taps. */
  lemma {:induction false} CountIsSumOverSources(rows: seq<Row>, event: Name, sources: seq<Name>, now: int)
    requires Distinct(sources) && forall r :: r in rows ==> r.source in sources
    ensures Count(rows, event, now) == SumOfTaps(rows, event, sources, now)
    decreases |rows|
  {
    if rows == [] {
      NoRowsNoTaps(event, sources, now);
    } else {
      var n := |rows| - 1;
      assert rows == rows[..n] + [rows[n]];
      CountIsSumOverSources(rows[..n], event, sources, now);
      CountOfConcat(rows[..n], [rows[n]], event, now);
      assert [rows[n]][1..] == [];
      SumOfAppend(rows[..n], rows[n], event, sources, now);
    }
  }
}
