/** Log records that wait for their transaction, in a session that holds a stack of open transactions, root first. */
module LogAfterCommit {
  import opened Wrappers

  type Record = string

  datatype TxStatus = Open | Committed | RolledBack

  /** A transaction object: its parent link survives its end. Ids are handed out in order of creation. */
  datatype Transaction = Transaction(parent: Option<nat>, status: TxStatus)

  datatype Entry = Entry(record: Record, tx: Option<nat>)

  ghost predicate Tree(txs: seq<Transaction>) {
    forall t :: 0 <= t < |txs| && txs[t].parent.Some? ==> txs[t].parent.value < t
  }

  // ---------- the reference: what ought to be published ----------

  /** A transaction took effect when it and all its ancestors committed. */
  ghost predicate Effective(txs: seq<Transaction>, t: nat)
    requires Tree(txs) && t < |txs|
  {
    txs[t].status.Committed? && (txs[t].parent.Some? ==> Effective(txs, txs[t].parent.value))
  }

  /** Not decided yet: the root is still open and no ancestor was rolled back. */
  ghost predicate Undecided(txs: seq<Transaction>, t: nat)
    requires Tree(txs) && t < |txs|
  {
    if txs[t].parent.None? then txs[t].status.Open?
    else !txs[t].status.RolledBack? && Undecided(txs, txs[t].parent.value)
  }

  ghost function Root(txs: seq<Transaction>, t: nat): (r: nat)
    requires Tree(txs) && t < |txs|
    ensures r <= t && txs[r].parent.None?
  {
    if txs[t].parent.None? then t else Root(txs, txs[t].parent.value)
  }

  /** t is x or a descendant of x. */
  predicate Under(txs: seq<Transaction>, t: nat, x: nat)
    requires Tree(txs) && t < |txs|
  {
    t == x || (txs[t].parent.Some? && Under(txs, txs[t].parent.value, x))
  }

  ghost predicate EntriesOk(txs: seq<Transaction>, log: seq<Entry>) {
    forall i :: 0 <= i < |log| && log[i].tx.Some? ==> log[i].tx.value < |txs|
  }

  /** The records that ought to be published: all effective ones, in logging order. */
  ghost function Expected(txs: seq<Transaction>, log: seq<Entry>): seq<Record>
    requires Tree(txs) && EntriesOk(txs, log)
  {
    if log == [] then []
    else
      var front, last := log[..|log| - 1], log[|log| - 1];
      Expected(txs, front) + if last.tx.None? || Effective(txs, last.tx.value) then [last.record] else []
  }

  /** The entries whose fate is still open, in logging order. */
  ghost function Waiting(txs: seq<Transaction>, log: seq<Entry>): seq<Entry>
    requires Tree(txs) && EntriesOk(txs, log)
  {
    if log == [] then []
    else
      var front, last := log[..|log| - 1], log[|log| - 1];
      Waiting(txs, front) + if last.tx.Some? && Undecided(txs, last.tx.value) then [last] else []
  }

  ghost function Records(entries: seq<Entry>): (r: seq<Record>)
    ensures |r| == |entries| && forall i :: 0 <= i < |r| ==> r[i] == entries[i].record
  {
    seq(|entries|, i requires 0 <= i < |entries| => entries[i].record)
  }

  // ---------- the open transactions ----------

  /** The open transactions are exactly those on the stack, each the parent of the next. */
  ghost predicate StackOk(txs: seq<Transaction>, stack: seq<nat>) {
    && Tree(txs)
    && (forall i :: 0 <= i < |stack| ==> stack[i] < |txs| && txs[stack[i]].status.Open?)
    && (forall t :: 0 <= t < |txs| && txs[t].status.Open? ==> t in stack)
    && (forall i {:trigger ParentAt(stack, i)} :: 0 <= i < |stack| ==> txs[stack[i]].parent == ParentAt(stack, i))
  }

  function ParentAt(stack: seq<nat>, i: nat): Option<nat>
    requires i < |stack|
  {
    if i == 0 then None else Some(stack[i - 1])
  }

  /** Ends the innermost transactions down to depth `depth`, with one status for all of them. */
  ghost predicate Ends(a: seq<Transaction>, b: seq<Transaction>, stack: seq<nat>, depth: nat, status: TxStatus) {
    && |a| == |b|
    && depth <= |stack|
    && forall t :: 0 <= t < |a| ==> b[t] == if t in stack[depth..] then a[t].(status := status) else a[t]
  }

  /** The entries logged since the current root began are the only undecided ones, and none of them has taken effect. */
  ghost predicate Split(txs: seq<Transaction>, stack: seq<nat>, log: seq<Entry>, base: nat)
    requires Tree(txs) && EntriesOk(txs, log)
  {
    && base <= |log|
    && (forall i :: 0 <= i < base && log[i].tx.Some? ==> !txs[Root(txs, log[i].tx.value)].status.Open?)
    && (forall i :: base <= i < |log| ==>
          stack != [] && log[i].tx.Some? && Root(txs, log[i].tx.value) == stack[0])
  }

  lemma {:induction false} RootDecides(txs: seq<Transaction>, t: nat)
    requires Tree(txs) && t < |txs|
    ensures Undecided(txs, t) ==> txs[Root(txs, t)].status.Open?
    ensures Effective(txs, t) ==> txs[Root(txs, t)].status.Committed?
  {
    if txs[t].parent.Some? { RootDecides(txs, txs[t].parent.value); }
  }

  lemma {:induction false} RootKept(a: seq<Transaction>, b: seq<Transaction>, t: nat)
    requires Tree(a) && Tree(b) && t < |a| <= |b|
    requires forall i :: 0 <= i < |a| ==> a[i].parent == b[i].parent
    ensures Root(a, t) == Root(b, t)
  {
    if a[t].parent.Some? { RootKept(a, b, a[t].parent.value); }
  }

  lemma {:induction false} UnderTrans(txs: seq<Transaction>, t: nat, x: nat, y: nat)
    requires Tree(txs) && t < |txs| && x < |txs| && Under(txs, t, x) && Under(txs, x, y)
    ensures Under(txs, t, y)
  {
    if t != x { UnderTrans(txs, txs[t].parent.value, x, y); }
  }

  /** Every transaction on the stack lies under the ones before it. */
  lemma {:induction false} StackUnder(txs: seq<Transaction>, stack: seq<nat>, i: nat, j: nat)
    requires StackOk(txs, stack) && i <= j < |stack|
    ensures Under(txs, stack[j], stack[i])
    decreases j
  {
    if i < j {
      StackUnder(txs, stack, i, j - 1);
      assert txs[stack[j]].parent == ParentAt(stack, j);
    }
  }

  // ---------- what each kind of ending does to the fate of a transaction ----------

  /** New transactions change nothing for the old ones. */
  lemma {:induction false} Grown(txs: seq<Transaction>, x: Transaction, t: nat)
    requires Tree(txs) && Tree(txs + [x]) && t < |txs|
    ensures Effective(txs + [x], t) == Effective(txs, t)
    ensures Undecided(txs + [x], t) == Undecided(txs, t)
  {
    if txs[t].parent.Some? { Grown(txs, x, txs[t].parent.value); }
  }

  /** Releasing a savepoint decides nothing. */
  lemma {:induction false} SavepointReleased(a: seq<Transaction>, b: seq<Transaction>, stack: seq<nat>, t: nat)
    requires StackOk(a, stack) && Tree(b) && |stack| > 1 && Ends(a, b, stack, |stack| - 1, Committed) && t < |a|
    ensures Undecided(b, t) == Undecided(a, t)
    ensures Effective(b, t) == Effective(a, t)
  {
    var top := stack[|stack| - 1];
    assert stack[|stack| - 1..] == [top];
    if a[t].parent.Some? { SavepointReleased(a, b, stack, a[t].parent.value); }
    if t == top {
      assert a[top].parent == ParentAt(stack, |stack| - 1);
      StackUnder(a, stack, 0, |stack| - 2);
      NotEffectiveBelow(a, stack[|stack| - 2], stack[0]);
    }
  }

  lemma {:induction false} NotEffectiveBelow(txs: seq<Transaction>, t: nat, x: nat)
    requires Tree(txs) && t < |txs| && x < |txs| && Under(txs, t, x) && !txs[x].status.Committed?
    ensures !Effective(txs, t)
  {
    if t != x { NotEffectiveBelow(txs, txs[t].parent.value, x); }
  }

  lemma {:induction false} DecidedBelow(txs: seq<Transaction>, t: nat, x: nat)
    requires Tree(txs) && t < |txs| && x < |txs| && Under(txs, t, x) && txs[x].status.RolledBack?
    ensures !Undecided(txs, t)
  {
    if t != x { DecidedBelow(txs, txs[t].parent.value, x); }
  }

  /** Committing the root gives effect to exactly what was undecided below it. */
  lemma {:induction false} RootCommitted(a: seq<Transaction>, b: seq<Transaction>, stack: seq<nat>, t: nat)
    requires StackOk(a, stack) && Tree(b) && |stack| == 1 && Ends(a, b, stack, 0, Committed) && t < |a|
    ensures !Undecided(b, t)
    ensures Effective(b, t) <==> Effective(a, t) || Undecided(a, t)
    ensures Undecided(a, t) ==> !Effective(a, t)
  {
    assert stack[0..] == stack;
    if a[t].parent.Some? {
      assert stack == [stack[0]] && a[stack[0]].parent == ParentAt(stack, 0);
      assert t !in stack && !a[t].status.Open?;
      RootCommitted(a, b, stack, a[t].parent.value);
    }
  }

  /** Rolling back to a depth decides exactly the transactions below that one. */
  lemma {:induction false} RolledBackTo(a: seq<Transaction>, b: seq<Transaction>, stack: seq<nat>, depth: nat, t: nat)
    requires StackOk(a, stack) && Tree(b) && depth < |stack| && Ends(a, b, stack, depth, RolledBack) && t < |a|
    ensures Undecided(b, t) <==> Undecided(a, t) && !Under(a, t, stack[depth])
    ensures Effective(b, t) == Effective(a, t)
  {
    if a[t].parent.Some? { RolledBackTo(a, b, stack, depth, a[t].parent.value); }
    if t in stack[depth..] {
      var j :| depth <= j < |stack| && stack[j] == t;
      StackUnder(a, stack, depth, j);
    } else {
      assert t != stack[depth] by { assert stack[depth..][0] == stack[depth]; }
    }
  }

  // ---------- the same for the log ----------

  lemma {:induction false} LogGrown(txs: seq<Transaction>, x: Transaction, log: seq<Entry>)
    requires Tree(txs) && Tree(txs + [x]) && EntriesOk(txs, log)
    ensures Expected(txs + [x], log) == Expected(txs, log)
    ensures Waiting(txs + [x], log) == Waiting(txs, log)
  {
    if log != [] {
      LogGrown(txs, x, log[..|log| - 1]);
      if log[|log| - 1].tx.Some? { Grown(txs, x, log[|log| - 1].tx.value); }
    }
  }

  lemma {:induction false} LogReleased(a: seq<Transaction>, b: seq<Transaction>, stack: seq<nat>, log: seq<Entry>)
    requires StackOk(a, stack) && Tree(b) && |stack| > 1 && Ends(a, b, stack, |stack| - 1, Committed)
    requires EntriesOk(a, log)
    ensures Expected(b, log) == Expected(a, log)
    ensures Waiting(b, log) == Waiting(a, log)
  {
    if log != [] {
      LogReleased(a, b, stack, log[..|log| - 1]);
      if log[|log| - 1].tx.Some? { SavepointReleased(a, b, stack, log[|log| - 1].tx.value); }
    }
  }

  /** A commit changes nothing for entries of earlier roots. */
  lemma {:induction false} LogSettled(a: seq<Transaction>, b: seq<Transaction>, stack: seq<nat>, log: seq<Entry>)
    requires StackOk(a, stack) && Tree(b) && |stack| == 1 && Ends(a, b, stack, 0, Committed) && EntriesOk(a, log)
    requires forall i :: 0 <= i < |log| && log[i].tx.Some? ==> !a[Root(a, log[i].tx.value)].status.Open?
    ensures Expected(b, log) == Expected(a, log) && Waiting(b, log) == [] && Waiting(a, log) == []
  {
    NothingWaiting(a, log);
    if log != [] {
      var last := log[|log| - 1];
      LogSettled(a, b, stack, log[..|log| - 1]);
      if last.tx.Some? {
        RootCommitted(a, b, stack, last.tx.value);
        RootDecides(a, last.tx.value);
      }
    }
  }

  /** What a commit of the root decides about an entry under it. */
  lemma {:induction false} CommitLast(a: seq<Transaction>, b: seq<Transaction>, stack: seq<nat>, e: Entry)
    requires StackOk(a, stack) && Tree(b) && |stack| == 1 && Ends(a, b, stack, 0, Committed) && AtRoot(a, stack, e)
    ensures !Effective(a, e.tx.value) && !Undecided(b, e.tx.value)
    ensures Effective(b, e.tx.value) <==> Undecided(a, e.tx.value)
  {
    RootDecides(a, e.tx.value);
    RootCommitted(a, b, stack, e.tx.value);
  }

  lemma Associates(x: seq<Record>, y: seq<Record>, r: Record)
    ensures (x + y) + [r] == x + (y + [r])
    ensures (x + y) + [] == x + y
  {
  }

  lemma RecordsOfAppend(entries: seq<Entry>, e: Entry)
    ensures Records(entries + [e]) == Records(entries) + [e.record]
  {
  }

  lemma {:induction false} EntryTakesEffect(a: seq<Transaction>, b: seq<Transaction>, stack: seq<nat>, front: seq<Entry>, last: Entry)
    requires StackOk(a, stack) && Tree(b) && |stack| == 1 && Ends(a, b, stack, 0, Committed)
    requires EntriesOk(a, front) && AtRoot(a, stack, last)
    requires Expected(b, front) == Expected(a, front) + Records(Waiting(a, front)) && Waiting(b, front) == []
    ensures EntriesOk(a, front + [last])
    ensures Expected(b, front + [last]) == Expected(a, front + [last]) + Records(Waiting(a, front + [last]))
    ensures Waiting(b, front + [last]) == []
  {
    CommitLast(a, b, stack, last);
    AppendEntry(a, front, last);
    AppendEntry(b, front, last);
    RecordsOfAppend(Waiting(a, front), last);
    Associates(Expected(a, front), Records(Waiting(a, front)), last.record);
  }

  /** The same for the entries of the root that commits, from `base` on. */
  lemma {:induction false} LogTakesEffect(a: seq<Transaction>, b: seq<Transaction>, stack: seq<nat>,
                                          log: seq<Entry>, base: nat)
    requires StackOk(a, stack) && Tree(b) && |stack| == 1 && Ends(a, b, stack, 0, Committed)
    requires EntriesOk(a, log) && base <= |log| && forall i :: base <= i < |log| ==> AtRoot(a, stack, log[i])
    requires Expected(b, log[..base]) == Expected(a, log[..base])
    requires Waiting(b, log[..base]) == [] && Waiting(a, log[..base]) == []
    ensures Expected(b, log) == Expected(a, log) + Records(Waiting(a, log))
    ensures Waiting(b, log) == []
    decreases |log|
  {
    if base == |log| {
      assert log[..base] == log;
    } else {
      var front, last := log[..|log| - 1], log[|log| - 1];
      assert front[..base] == log[..base];
      LogTakesEffect(a, b, stack, front, base);
      EntryTakesEffect(a, b, stack, front, last);
      assert log == front + [last];
    }
  }

  /** Publishing the queue after everything already published keeps logging order. */
  lemma {:induction false} LogCommitted(a: seq<Transaction>, b: seq<Transaction>, stack: seq<nat>, log: seq<Entry>, base: nat)
    requires StackOk(a, stack) && Tree(b) && |stack| == 1 && Ends(a, b, stack, 0, Committed)
    requires EntriesOk(a, log) && Split(a, stack, log, base)
    ensures Expected(b, log) == Expected(a, log) + Records(Waiting(a, log))
    ensures Waiting(b, log) == []
  {
    LogSettled(a, b, stack, log[..base]);
    LogTakesEffect(a, b, stack, log, base);
  }

  lemma {:induction false} NothingWaiting(txs: seq<Transaction>, log: seq<Entry>)
    requires Tree(txs) && EntriesOk(txs, log)
    requires forall i :: 0 <= i < |log| && log[i].tx.Some? ==> !txs[Root(txs, log[i].tx.value)].status.Open?
    ensures Waiting(txs, log) == []
  {
    if log != [] {
      NothingWaiting(txs, log[..|log| - 1]);
      if log[|log| - 1].tx.Some? { RootDecides(txs, log[|log| - 1].tx.value); }
    }
  }

  /** What the rollback handler keeps of the queue. */
  ghost function Keep(txs: seq<Transaction>, entries: seq<Entry>, x: nat): seq<Entry>
    requires Tree(txs) && EntriesOk(txs, entries)
  {
    if entries == [] then []
    else
      var front, last := entries[..|entries| - 1], entries[|entries| - 1];
      Keep(txs, front, x) + if last.tx.Some? && Under(txs, last.tx.value, x) then [] else [last]
  }

  lemma {:induction false} WaitingOk(txs: seq<Transaction>, log: seq<Entry>)
    requires Tree(txs) && EntriesOk(txs, log)
    ensures EntriesOk(txs, Waiting(txs, log))
  {
    if log != [] { WaitingOk(txs, log[..|log| - 1]); }
  }

  lemma {:induction false} LogRolledBack(a: seq<Transaction>, b: seq<Transaction>, stack: seq<nat>, depth: nat,
                                         log: seq<Entry>)
    requires StackOk(a, stack) && Tree(b) && depth < |stack| && Ends(a, b, stack, depth, RolledBack)
    requires EntriesOk(a, log)
    ensures EntriesOk(a, Waiting(a, log))
    ensures Expected(b, log) == Expected(a, log)
    ensures Waiting(b, log) == Keep(a, Waiting(a, log), stack[depth])
  {
    WaitingOk(a, log);
    if log != [] {
      var front, last := log[..|log| - 1], log[|log| - 1];
      LogRolledBack(a, b, stack, depth, front);
      if last.tx.Some? { RolledBackTo(a, b, stack, depth, last.tx.value); }
      var w := Waiting(a, front);
      if last.tx.Some? && Undecided(a, last.tx.value) {
        assert (w + [last])[..|w|] == w;
      } else {
        assert w + [] == w;
      }
    }
  }

  lemma {:induction false} KeepNothing(txs: seq<Transaction>, entries: seq<Entry>, x: nat)
    requires Tree(txs) && EntriesOk(txs, entries) && x < |txs|
    requires forall e :: e in entries ==> AtRoot(txs, [x], e)
    ensures Keep(txs, entries, x) == []
  {
    if entries != [] {
      KeepNothing(txs, entries[..|entries| - 1], x);
      assert AtRoot(txs, [x], entries[|entries| - 1]);
      RootIsAbove(txs, entries[|entries| - 1].tx.value);
    }
  }

  lemma {:induction false} RootIsAbove(txs: seq<Transaction>, t: nat)
    requires Tree(txs) && t < |txs|
    ensures Under(txs, t, Root(txs, t))
  {
    if txs[t].parent.Some? { RootIsAbove(txs, txs[t].parent.value); }
  }

  // ---------- the stack and the split, as transactions end ----------

  lemma {:induction false} StackIncreasing(txs: seq<Transaction>, stack: seq<nat>, i: nat, j: nat)
    requires StackOk(txs, stack) && i < j < |stack|
    ensures stack[i] < stack[j]
    decreases j
  {
    assert txs[stack[j]].parent == ParentAt(stack, j);
    if i < j - 1 { StackIncreasing(txs, stack, i, j - 1); }
  }

  lemma InSuffix(stack: seq<nat>, depth: nat)
    requires depth <= |stack|
    ensures forall k :: depth <= k < |stack| ==> stack[k] in stack[depth..]
  {
    forall k | depth <= k < |stack| ensures stack[k] in stack[depth..] {
      assert stack[depth..][k - depth] == stack[k];
    }
  }

  lemma StackEnds(a: seq<Transaction>, b: seq<Transaction>, stack: seq<nat>, depth: nat, status: TxStatus)
    requires StackOk(a, stack) && Ends(a, b, stack, depth, status) && !status.Open?
    ensures StackOk(b, stack[..depth])
  {
    forall i, j | 0 <= i < depth <= j < |stack| ensures stack[i] != stack[j] { StackIncreasing(a, stack, i, j); }
    forall t | 0 <= t < |b| && b[t].status.Open? ensures t in stack[..depth] {
      var k :| 0 <= k < |stack| && stack[k] == t;
      assert k < depth by { InSuffix(stack, depth); }
      assert stack[..depth][k] == t;
    }
    forall i | 0 <= i < depth ensures b[stack[..depth][i]].parent == ParentAt(stack[..depth], i) {
      assert a[stack[i]].parent == ParentAt(stack, i);
    }
  }

  lemma SplitEnds(a: seq<Transaction>, b: seq<Transaction>, stack: seq<nat>, depth: nat, status: TxStatus,
                  log: seq<Entry>, base: nat)
    requires StackOk(a, stack) && Ends(a, b, stack, depth, status) && !status.Open? && depth < |stack|
    requires EntriesOk(a, log) && Split(a, stack, log, base)
    ensures Tree(b) && EntriesOk(b, log)
    ensures Split(b, stack[..depth], log, if depth == 0 then |log| else base)
  {
    forall i | 0 <= i < |log| && log[i].tx.Some? ensures Root(b, log[i].tx.value) == Root(a, log[i].tx.value) {
      RootKept(a, b, log[i].tx.value);
    }
    if depth == 0 { assert stack[0..][0] == stack[0]; }
  }

  lemma EndsMore(a: seq<Transaction>, b: seq<Transaction>, c: seq<Transaction>, stack: seq<nat>, depth: nat,
                 status: TxStatus)
    requires StackOk(a, stack) && depth < |stack| && Ends(a, b, stack, depth + 1, status)
    requires c == b[stack[depth] := b[stack[depth]].(status := status)]
    ensures Ends(a, c, stack, depth, status)
  {
    assert stack[depth..] == [stack[depth]] + stack[depth + 1..];
  }

  lemma {:induction false} KeepKept(a: seq<Transaction>, b: seq<Transaction>, entries: seq<Entry>, x: nat)
    requires Tree(a) && Tree(b) && |a| == |b| && EntriesOk(a, entries)
    requires forall i :: 0 <= i < |a| ==> a[i].parent == b[i].parent
    ensures Keep(a, entries, x) == Keep(b, entries, x)
  {
    if entries != [] {
      KeepKept(a, b, entries[..|entries| - 1], x);
      if entries[|entries| - 1].tx.Some? { UnderKept(a, b, entries[|entries| - 1].tx.value, x); }
    }
  }

  lemma {:induction false} UnderKept(a: seq<Transaction>, b: seq<Transaction>, t: nat, x: nat)
    requires Tree(a) && Tree(b) && |a| == |b| && t < |a|
    requires forall i :: 0 <= i < |a| ==> a[i].parent == b[i].parent
    ensures Under(a, t, x) == Under(b, t, x)
  {
    if a[t].parent.Some? { UnderKept(a, b, a[t].parent.value, x); }
  }

  lemma {:induction false} StackRoot(txs: seq<Transaction>, stack: seq<nat>, i: nat)
    requires StackOk(txs, stack) && i < |stack|
    ensures Root(txs, stack[i]) == stack[0] && Undecided(txs, stack[i])
  {
    assert txs[stack[i]].parent == ParentAt(stack, i);
    if i > 0 { StackRoot(txs, stack, i - 1); }
  }

  /** The entry was logged under the open root. */
  ghost predicate AtRoot(txs: seq<Transaction>, stack: seq<nat>, e: Entry)
    requires Tree(txs)
  {
    stack != [] && e.tx.Some? && e.tx.value < |txs| && Root(txs, e.tx.value) == stack[0]
  }

  lemma {:induction false} UndecidedAtRoot(txs: seq<Transaction>, stack: seq<nat>, e: Entry)
    requires StackOk(txs, stack) && e.tx.Some? && e.tx.value < |txs| && Undecided(txs, e.tx.value)
    ensures AtRoot(txs, stack, e)
  {
    RootDecides(txs, e.tx.value);
    var k :| 0 <= k < |stack| && stack[k] == Root(txs, e.tx.value);
    assert txs[stack[k]].parent == ParentAt(stack, k);
  }

  /** Everything that waits belongs to the open root. */
  lemma {:induction false} WaitingUnderRoot(txs: seq<Transaction>, stack: seq<nat>, log: seq<Entry>)
    requires StackOk(txs, stack) && EntriesOk(txs, log)
    ensures EntriesOk(txs, Waiting(txs, log))
    ensures forall e :: e in Waiting(txs, log) ==> AtRoot(txs, stack, e)
  {
    WaitingOk(txs, log);
    if log != [] {
      var last := log[|log| - 1];
      WaitingUnderRoot(txs, stack, log[..|log| - 1]);
      if last.tx.Some? && Undecided(txs, last.tx.value) { UndecidedAtRoot(txs, stack, last); }
    }
  }

  // ---------- the invariant, and what each event does to it ----------

  /** Published is what ought to be published, queued is what is undecided. */
  ghost predicate Inv(txs: seq<Transaction>, stack: seq<nat>, log: seq<Entry>, base: nat,
                      published: seq<Record>, queue: seq<Entry>)
  {
    && StackOk(txs, stack)
    && EntriesOk(txs, log)
    && Split(txs, stack, log, base)
    && published == Expected(txs, log)
    && queue == Waiting(txs, log)
    && EntriesOk(txs, queue)
  }

  /** Everything a new transaction does to the invariant. */
  lemma {:induction false} PushFacts(txs: seq<Transaction>, stack: seq<nat>, log: seq<Entry>, base: nat)
    requires StackOk(txs, stack) && EntriesOk(txs, log) && Split(txs, stack, log, base)
    ensures var b := txs + [Transaction(ParentAt(stack + [|txs|], |stack|), Open)]; var stack' := stack + [|txs|];
      && StackOk(b, stack') && EntriesOk(b, log)
      && Split(b, stack', log, if stack == [] then |log| else base)
      && Expected(b, log) == Expected(txs, log) && Waiting(b, log) == Waiting(txs, log)
  {
    var stack' := stack + [|txs|];
    var x := Transaction(ParentAt(stack', |stack|), Open);
    var b := txs + [x];
    LogGrown(txs, x, log);
    forall i | 0 <= i < |log| && log[i].tx.Some? ensures Root(b, log[i].tx.value) == Root(txs, log[i].tx.value) {
      RootKept(txs, b, log[i].tx.value);
    }
    forall i | 0 <= i < |stack'| ensures b[stack'[i]].parent == ParentAt(stack', i) {
      if i < |stack| { assert txs[stack[i]].parent == ParentAt(stack, i); }
    }
    forall t | 0 <= t < |b| && b[t].status.Open? ensures t in stack' {
      if t == |txs| { assert stack'[|stack|] == t; }
    }
  }

  lemma PushInv(txs: seq<Transaction>, stack: seq<nat>, log: seq<Entry>, base: nat, published: seq<Record>,
                queue: seq<Entry>)
    requires Inv(txs, stack, log, base, published, queue)
    ensures Inv(txs + [Transaction(ParentAt(stack + [|txs|], |stack|), Open)], stack + [|txs|], log,
                if stack == [] then |log| else base, published, queue)
  {
    PushFacts(txs, stack, log, base);
  }

  lemma {:induction false} AppendEntry(txs: seq<Transaction>, log: seq<Entry>, e: Entry)
    requires Tree(txs) && EntriesOk(txs, log) && (e.tx.Some? ==> e.tx.value < |txs|)
    ensures EntriesOk(txs, log + [e])
    ensures Expected(txs, log + [e]) ==
            Expected(txs, log) + if e.tx.None? || Effective(txs, e.tx.value) then [e.record] else []
    ensures Waiting(txs, log + [e]) ==
            Waiting(txs, log) + if e.tx.Some? && Undecided(txs, e.tx.value) then [e] else []
  {
    assert (log + [e])[..|log|] == log;
  }

  lemma {:induction false} SplitAppend(txs: seq<Transaction>, stack: seq<nat>, log: seq<Entry>, base: nat, e: Entry)
    requires StackOk(txs, stack) && EntriesOk(txs, log) && Split(txs, stack, log, base)
    requires AtRoot(txs, stack, e) && !Effective(txs, e.tx.value)
    ensures EntriesOk(txs, log + [e]) && Split(txs, stack, log + [e], base)
  {
  }

  lemma LogInv(txs: seq<Transaction>, stack: seq<nat>, log: seq<Entry>, base: nat, published: seq<Record>,
               queue: seq<Entry>, record: Record)
    requires Inv(txs, stack, log, base, published, queue) && stack != []
    ensures var e := Entry(record, Some(stack[|stack| - 1]));
      Inv(txs, stack, log + [e], base, published, queue + [e])
  {
    var top := stack[|stack| - 1];
    var e := Entry(record, Some(top));
    assert Root(txs, top) == stack[0] && Undecided(txs, top) && !Effective(txs, top) by {
      StackRoot(txs, stack, |stack| - 1);
      RootDecides(txs, top);
    }
    AppendEntry(txs, log, e);
    SplitAppend(txs, stack, log, base, e);
  }

  lemma LogAtOnceInv(txs: seq<Transaction>, log: seq<Entry>, base: nat, published: seq<Record>,
                     queue: seq<Entry>, record: Record)
    requires Inv(txs, [], log, base, published, queue)
    ensures Inv(txs, [], log + [Entry(record, None)], |log| + 1, published + [record], queue)
  {
    AppendEntry(txs, log, Entry(record, None));
  }

  lemma ReleaseInv(a: seq<Transaction>, b: seq<Transaction>, stack: seq<nat>, log: seq<Entry>, base: nat,
                   published: seq<Record>, queue: seq<Entry>)
    requires Inv(a, stack, log, base, published, queue) && |stack| > 1 && Ends(a, b, stack, |stack| - 1, Committed)
    ensures Inv(b, stack[..|stack| - 1], log, base, published, queue)
  {
    SplitEnds(a, b, stack, |stack| - 1, Committed, log, base);
    StackEnds(a, b, stack, |stack| - 1, Committed);
    LogReleased(a, b, stack, log);
  }

  lemma CommitInv(a: seq<Transaction>, b: seq<Transaction>, stack: seq<nat>, log: seq<Entry>, base: nat,
                  published: seq<Record>, queue: seq<Entry>)
    requires Inv(a, stack, log, base, published, queue) && |stack| == 1 && Ends(a, b, stack, 0, Committed)
    ensures Inv(b, [], log, |log|, published + Records(queue), [])
  {
    SplitEnds(a, b, stack, 0, Committed, log, base);
    StackEnds(a, b, stack, 0, Committed);
    LogCommitted(a, b, stack, log, base);
    assert stack[..0] == [];
  }

  /** Ending transactions moves no entry to another branch. */
  lemma {:induction false} KeepAfterEnds(a: seq<Transaction>, b: seq<Transaction>, stack: seq<nat>, depth: nat, queue: seq<Entry>, x: nat)
    requires Tree(a) && EntriesOk(a, queue) && Ends(a, b, stack, depth, RolledBack)
    ensures Tree(b) && EntriesOk(b, queue) && Keep(b, queue, x) == Keep(a, queue, x)
    ensures EntriesOk(b, []) && Keep(b, [], x) == []
  {
    KeepKept(a, b, queue, x);
  }

  /** The rollback of a root drops the whole queue. */
  lemma {:induction false} RootDropsAll(txs: seq<Transaction>, stack: seq<nat>, log: seq<Entry>, base: nat,
                     published: seq<Record>, queue: seq<Entry>)
    requires Inv(txs, stack, log, base, published, queue) && stack != []
    ensures Keep(txs, queue, stack[0]) == []
  {
    WaitingUnderRoot(txs, stack, log);
    forall e | e in queue ensures AtRoot(txs, [stack[0]], e) { assert AtRoot(txs, stack, e); }
    KeepNothing(txs, queue, stack[0]);
  }

  /** A rollback to `depth` leaves what the handler keeps of the queue. */
  lemma {:induction false} RollbackInv(a: seq<Transaction>, b: seq<Transaction>, stack: seq<nat>, depth: nat, log: seq<Entry>, base: nat,
                    published: seq<Record>, queue: seq<Entry>)
    requires Inv(a, stack, log, base, published, queue) && depth < |stack| && Ends(a, b, stack, depth, RolledBack)
    ensures Tree(b) && EntriesOk(b, queue) && |a| == |b|
    ensures Keep(a, queue, stack[depth]) == Keep(b, queue, stack[depth])
    ensures Inv(b, stack[..depth], log, if depth == 0 then |log| else base, published, Keep(a, queue, stack[depth]))
    ensures depth == 0 ==> Keep(a, queue, stack[depth]) == []
  {
    SplitEnds(a, b, stack, depth, RolledBack, log, base);
    StackEnds(a, b, stack, depth, RolledBack);
    LogRolledBack(a, b, stack, depth, log);
    KeepKept(a, b, queue, stack[depth]);
    WaitingOk(b, log);
    if depth == 0 {
      RootDropsAll(a, stack, log, base, published, queue);
    }
  }

  lemma CloseInv(a: seq<Transaction>, b: seq<Transaction>, stack: seq<nat>, log: seq<Entry>, base: nat,
                 published: seq<Record>, queue: seq<Entry>)
    requires Inv(a, stack, log, base, published, queue) && stack != [] && Ends(a, b, stack, 0, RolledBack)
    ensures Inv(b, [], log, |log|, published, [])
  {
    RollbackInv(a, b, stack, 0, log, base, published, queue);
    assert stack[..0] == [];
  }

  // ---------- the guarantees between roots ----------

  /** Between root transactions nothing waits, so nothing can be published by a later root. */
  lemma {:induction false} NothingLeaks(txs: seq<Transaction>, log: seq<Entry>, base: nat)
    requires StackOk(txs, []) && EntriesOk(txs, log) && Split(txs, [], log, base)
    ensures Waiting(txs, log) == []
  {
    NothingWaiting(txs, log);
  }

  /** Once no transaction is open, every record is published or lies under a transaction that was rolled back. */
  lemma {:induction false} DecidedOnceClosed(txs: seq<Transaction>, t: nat)
    requires StackOk(txs, []) && t < |txs|
    ensures Effective(txs, t) <==> !exists x: nat :: x < |txs| && Under(txs, t, x) && txs[x].status.RolledBack?
  {
    if txs[t].parent.Some? {
      var p := txs[t].parent.value;
      DecidedOnceClosed(txs, p);
      assert forall x: nat :: x < |txs| ==> (Under(txs, t, x) <==> x == t || Under(txs, p, x));
    }
    assert Under(txs, t, t);
  }

  // ---------- the session ----------

  class Session {
    var txs: seq<Transaction>
    var stack: seq<nat>
    /** session.info[key]: the queue, and whether the three listeners are registered. */
    var queue: seq<Entry>
    var listening: bool
    /** What the loggers handled, in order. */
    var published: seq<Record>
    ghost var log: seq<Entry>
    ghost var base: nat

    ghost predicate Valid()
      reads this
    {
      && Inv(txs, stack, log, base, published, queue)
      && (!listening ==> queue == [])
    }

    constructor ()
      ensures Valid() && stack == [] && log == [] && published == []
    {
      txs, stack, queue, published, listening := [], [], [], [], false;
      log, base := [], 0;
    }

    method Push(parent: Option<nat>)
      requires Valid()
      requires parent == if stack == [] then None else Some(stack[|stack| - 1])
      modifies this`txs, this`stack, this`base
      ensures Valid() && |stack| == |old(stack)| + 1 && stack[..|old(stack)|] == old(stack)
    {
      PushInv(txs, stack, log, base, published, queue);
      if stack == [] { base := |log|; }
      stack := stack + [|txs|];
      txs := txs + [Transaction(parent, Open)];
    }

    method Begin()
      requires Valid() && stack == []
      modifies this`txs, this`stack, this`base
      ensures Valid() && |stack| == 1
    {
      Push(None);
    }

    method BeginNested()
      requires Valid() && stack != []
      modifies this`txs, this`stack, this`base
      ensures Valid() && |stack| == |old(stack)| + 1 && stack[..|old(stack)|] == old(stack)
    {
      Push(Some(stack[|stack| - 1]));
    }

    /** logger.handle(record), outside any transaction. */
    method HandleNow(record: Record)
      requires Valid() && stack == []
      modifies this`published, this`log, this`base
      ensures Valid() && log == old(log) + [Entry(record, None)] && published == old(published) + [record]
    {
      ghost var log', published' := log + [Entry(record, None)], published + [record];
      LogAtOnceInv(txs, log, base, published, queue, record);
      assert Inv(txs, stack, log', |log'|, published', queue);
      published := published + [record];
      log := log';
      base := |log'|;
    }

    /** Appends to the queue, together with the innermost transaction. */
    method Hold(record: Record)
      requires Valid() && stack != []
      modifies this`queue, this`listening, this`log
      ensures Valid() && log == old(log) + [Entry(record, Some(stack[|stack| - 1]))]
    {
      LogInv(txs, stack, log, base, published, queue, record);
      listening := true;
      queue := queue + [Entry(record, Some(stack[|stack| - 1]))];
      log := log + [Entry(record, Some(stack[|stack| - 1]))];
    }

    /** _log_after_commit: outside a transaction the record is handled at once, else it waits. */
    method Log(record: Record)
      requires Valid()
      modifies this`queue, this`published, this`listening, this`log, this`base
      ensures Valid()
      ensures log == old(log) + [Entry(record, if stack == [] then None else Some(stack[|stack| - 1]))]
      ensures published == old(published) + if stack == [] then [record] else []
    {
      if stack == [] { HandleNow(record); } else { Hold(record); }
    }

    /** after_commit, fired while the transaction that commits is still the innermost one. */
    method AfterCommit()
      requires |stack| > 1 || listening || queue == []
      modifies this`queue, this`published
      ensures |stack| > 1 ==> queue == old(queue) && published == old(published)
      ensures |stack| <= 1 ==> queue == [] && published == old(published) + Records(old(queue))
    {
      if |stack| > 1 || !listening { return; }
      var pending := queue;
      queue := [];
      for i := 0 to |pending|
        invariant queue == [] && published == old(published) + Records(pending[..i])
      {
        published := published + [pending[i].record];
        assert Records(pending[..i + 1]) == Records(pending[..i]) + [pending[i].record];
      }
      assert pending[..|pending|] == pending;
    }

    /** after_transaction_end: the end of a root empties the queue. */
    method Ended(t: nat)
      requires t < |txs|
      modifies this`queue
      ensures queue == if listening && txs[t].parent.None? then [] else old(queue)
    {
      if listening && txs[t].parent.None? { queue := []; }
    }

    /** belongs_to_rollback: walks the parent links. */
    method Belongs(t: nat, x: nat) returns (b: bool)
      requires Tree(txs) && t < |txs|
      ensures b == Under(txs, t, x)
    {
      var here: Option<nat> := Some(t);
      while here.Some?
        invariant here.Some? ==> here.value < |txs| && Under(txs, t, x) == Under(txs, here.value, x)
        invariant here.None? ==> !Under(txs, t, x)
        decreases if here.Some? then here.value + 1 else 0
      {
        if here.value == x { return true; }
        here := txs[here.value].parent;
      }
      return false;
    }

    /** after_soft_rollback: drops what was queued at or below the transaction that was rolled back. */
    method RolledBackHandler(x: nat)
      requires Tree(txs) && EntriesOk(txs, queue)
      modifies this`queue
      ensures queue == if listening then Keep(txs, old(queue), x) else old(queue)
    {
      if !listening { return; }
      var kept: seq<Entry> := [];
      for i := 0 to |queue|
        invariant queue == old(queue)
        invariant kept == Keep(txs, queue[..i], x)
      {
        assert queue[..i + 1][..i] == queue[..i];
        var item := queue[i];
        var drop := false;
        if item.tx.Some? { drop := Belongs(item.tx.value, x); }
        if !drop { kept := kept + [item]; }
      }
      assert queue[..|queue|] == queue;
      queue := kept;
    }

    /** Marks the innermost transaction as ended and takes it off the stack. */
    method Pop(status: TxStatus)
      requires stack != [] && stack[|stack| - 1] < |txs|
      modifies this`txs, this`stack
      ensures txs == old(txs)[old(stack)[|old(stack)| - 1] := old(txs)[old(stack)[|old(stack)| - 1]].(status := status)]
      ensures stack == old(stack)[..|old(stack)| - 1]
    {
      var top := stack[|stack| - 1];
      txs := txs[top := txs[top].(status := status)];
      stack := stack[..|stack| - 1];
    }

    /** The events of a commit: after_commit while the transaction is still the innermost one, then its end. */
    method FireCommit()
      requires stack != [] && stack[|stack| - 1] < |txs|
      requires txs[stack[|stack| - 1]].parent.None? <==> |stack| == 1
      requires listening || queue == []
      modifies this`txs, this`stack, this`queue, this`published
      ensures txs == old(txs)[old(stack)[|old(stack)| - 1] := old(txs)[old(stack)[|old(stack)| - 1]].(status := Committed)]
      ensures stack == old(stack)[..|old(stack)| - 1]
      ensures |old(stack)| > 1 ==> queue == old(queue) && published == old(published)
      ensures |old(stack)| == 1 ==> queue == [] && published == old(published) + Records(old(queue))
    {
      var top := stack[|stack| - 1];
      AfterCommit();
      Pop(Committed);
      Ended(top);
    }

    method ReleaseSavepoint()
      requires Valid() && |stack| > 1
      modifies this
      ensures Valid() && stack == old(stack)[..|old(stack)| - 1] && log == old(log)
      ensures published == old(published) && queue == old(queue)
    {
      ghost var txs0, stack0 := txs, stack;
      assert txs[stack[|stack| - 1]].parent == ParentAt(stack, |stack| - 1);
      FireCommit();
      EndsMore(txs0, txs0, txs, stack0, |stack0| - 1, Committed);
      ReleaseInv(txs0, txs, stack0, log, base, published, queue);
    }

    /** The root's commit publishes. */
    method CommitRoot()
      requires Valid() && |stack| == 1
      modifies this
      ensures Valid() && stack == [] && log == old(log)
      ensures published == old(published) + Records(old(queue)) && queue == []
    {
      ghost var txs0, stack0 := txs, stack;
      assert txs[stack[0]].parent == ParentAt(stack, 0);
      FireCommit();
      EndsMore(txs0, txs0, txs, stack0, 0, Committed);
      CommitInv(txs0, txs, stack0, log, base, old(published), old(queue));
      base := |log|;
    }

    /** Commits the innermost transaction: releases a savepoint, or commits the root and publishes. */
    method CommitInnermost()
      requires Valid() && stack != []
      modifies this
      ensures Valid() && stack == old(stack)[..|old(stack)| - 1] && log == old(log)
      ensures |old(stack)| > 1 ==> published == old(published) && queue == old(queue)
      ensures |old(stack)| == 1 ==> published == old(published) + Records(old(queue)) && queue == []
    {
      if |stack| > 1 { ReleaseSavepoint(); } else { CommitRoot(); }
    }

    /** session.commit(): innermost to root. */
    method Commit()
      requires Valid()
      modifies this
      ensures Valid() && stack == [] && log == old(log)
      ensures old(stack) != [] ==> published == old(published) + Records(old(queue)) && queue == []
      ensures old(stack) == [] ==> published == old(published)
    {
      ghost var published0, queue0, nested := published, queue, stack != [];
      while stack != []
        invariant Valid() && log == old(log)
        invariant stack != [] ==> nested
        invariant stack != [] || !nested ==> published == published0 && queue == queue0
        invariant stack == [] && nested ==> published == published0 + Records(queue0) && queue == []
        decreases |stack|
      {
        CommitInnermost();
      }
    }

    /** Ends the transactions above `depth` and the one at it, innermost first, without committing them. */
    method EndDownTo(depth: nat)
      requires StackOk(txs, stack) && depth < |stack|
      modifies this`txs, this`stack, this`queue
      ensures Ends(old(txs), txs, old(stack), depth, RolledBack) && stack == old(stack)[..depth]
      ensures queue == if listening && depth == 0 then [] else old(queue)
    {
      ghost var txs0, stack0 := txs, stack;
      while |stack| > depth
        invariant depth <= |stack| <= |stack0| && stack == stack0[..|stack|]
        invariant Ends(txs0, txs, stack0, |stack|, RolledBack)
        invariant queue == if listening && |stack| == 0 then [] else old(queue)
        decreases |stack|
      {
        ghost var txs1 := txs;
        var top := stack[|stack| - 1];
        Pop(RolledBack);
        EndsMore(txs0, txs1, txs, stack0, |stack|, RolledBack);
        assert txs0[top].parent == ParentAt(stack0, |stack|);
        Ended(top);
      }
    }

    /** The events of a rollback to `depth`: the ends, then the handler for the transaction itself. */
    method EndAndDrop(depth: nat)
      requires StackOk(txs, stack) && EntriesOk(txs, queue) && depth < |stack|
      requires !listening ==> queue == []
      requires depth == 0 ==> Keep(txs, queue, stack[0]) == []
      modifies this`txs, this`stack, this`queue
      ensures Ends(old(txs), txs, old(stack), depth, RolledBack) && stack == old(stack)[..depth]
      ensures queue == Keep(old(txs), old(queue), old(stack)[depth])
    {
      ghost var txs0, stack0, queue0 := txs, stack, queue;
      var x := stack[depth];
      EndDownTo(depth);
      KeepAfterEnds(txs0, txs, stack0, depth, queue0, x);
      RolledBackHandler(x);
    }

    /** Rolls back the transaction at `depth`; the savepoints above it end without an event of their own. */
    method RollbackTo(depth: nat)
      requires Valid() && depth < |stack|
      modifies this
      ensures Valid() && stack == old(stack)[..depth] && log == old(log) && published == old(published)
    {
      ghost var txs0, stack0, queue0 := txs, stack, queue;
      if depth == 0 { RootDropsAll(txs, stack, log, base, published, queue); }
      EndAndDrop(depth);
      RollbackInv(txs0, txs, stack0, depth, log, base, published, queue0);
      if depth == 0 { base := |log|; }
    }

    /** session.rollback(): one level after the other, down to the root. */
    method Rollback()
      requires Valid()
      modifies this
      ensures Valid() && stack == [] && log == old(log) && published == old(published)
    {
      while stack != []
        invariant Valid() && log == old(log) && published == old(published)
        decreases |stack|
      {
        RollbackTo(|stack| - 1);
      }
    }

    /** session.close(): every open transaction ends, and no rollback event fires. */
    method Close()
      requires Valid()
      modifies this
      ensures Valid() && stack == [] && log == old(log) && published == old(published)
      ensures old(stack) != [] ==> queue == []
    {
      if stack == [] { return; }
      ghost var txs0, stack0 := txs, stack;
      EndDownTo(0);
      CloseInv(txs0, txs, stack0, log, base, published, old(queue));
      base := |log|;
    }
  }
}
