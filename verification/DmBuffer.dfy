/** The bounded text buffer of a direct-message conversation (backend/app/repositories/dm_repo.py).

    A send trims the oldest messages with a window-function predicate and keeps a separate counter,
    total_chars. The rows are kept in no particular order: the window SUM(..) OVER (ORDER BY
    created_at) uses the default RANGE frame, so it adds up every non-recalled row whose created_at
    is not later, peers included. */
module DmBuffer {
  import opened Basics

  type MessageId = nat

  datatype Message = Message(id: MessageId, createdAt: int, content: Option<string>, attachment: Option<string>, recalled: bool)

  function Len(m: Message): nat {
    if m.content.Some? then |m.content.value| else 0
  }

  function Weight(m: Message): nat {
    if m.recalled then 0 else Len(m)
  }

  // ---- Sums over the non-recalled rows ----

  function Kept(rows: seq<Message>): nat {
    if rows == [] then 0 else Kept(rows[1..]) + Weight(rows[0])
  }

  function Before(rows: seq<Message>, t: int): nat {
    if rows == [] then 0 else Before(rows[1..], t) + if rows[0].createdAt < t then Weight(rows[0]) else 0
  }

  function UpTo(rows: seq<Message>, t: int): nat {
    if rows == [] then 0 else UpTo(rows[1..], t) + if rows[0].createdAt <= t then Weight(rows[0]) else 0
  }

  // Characters of the messages sent at t that are longer than `bound`.
  function LongPeers(rows: seq<Message>, t: int, bound: int): nat {
    if rows == [] then 0
    else LongPeers(rows[1..], t, bound) + if rows[0].createdAt == t && Len(rows[0]) > bound then Weight(rows[0]) else 0
  }

  // ---- The trim statement ----

  // running_total <= excess OR char_len > 0 AND running_total - char_len < excess
  predicate Selected(all: seq<Message>, excess: nat, m: Message) {
    var total := UpTo(all, m.createdAt);
    !m.recalled && (total <= excess || (Len(m) > 0 && total - Len(m) < excess))
  }

  function Freed(part: seq<Message>, all: seq<Message>, excess: nat): nat {
    if part == [] then 0
    else Freed(part[1..], all, excess) + if Selected(all, excess, part[0]) then Len(part[0]) else 0
  }

  function Spared(part: seq<Message>, all: seq<Message>, excess: nat): (r: seq<Message>)
    ensures forall m <- r :: m in part && !Selected(all, excess, m)
    ensures Kept(r) + Freed(part, all, excess) == Kept(part)
    ensures DistinctTimes(part) ==> DistinctTimes(r)
  {
    if part == [] then []
    else
      var rest := Spared(part[1..], all, excess);
      if Selected(all, excess, part[0]) then rest
      else
        assert ([part[0]] + rest)[1..] == rest;
        [part[0]] + rest
  }

  lemma {:induction false} SumsOrdered(rows: seq<Message>, t: int, u: int)
    requires t < u
    ensures Before(rows, t) <= UpTo(rows, t) <= Before(rows, u) <= Kept(rows)
  {
    if rows != [] {
      SumsOrdered(rows[1..], t, u);
    }
  }

  lemma {:induction false} OwnWeight(rows: seq<Message>, m: Message)
    requires m in rows
    ensures Before(rows, m.createdAt) + Weight(m) <= UpTo(rows, m.createdAt) <= Kept(rows)
  {
    SumsOrdered(rows[1..], m.createdAt, m.createdAt + 1);
    if rows[0] != m {
      OwnWeight(rows[1..], m);
    }
  }

  /** The deleted rows are a prefix in time: everything older than a deleted message goes too. */
  lemma TrimTakesOldest(rows: seq<Message>, excess: nat, newer: Message, older: Message)
    requires newer in rows && older in rows && !older.recalled
    requires older.createdAt < newer.createdAt && Selected(rows, excess, newer)
    ensures Selected(rows, excess, older)
  {
    SumsOrdered(rows, older.createdAt, newer.createdAt);
    OwnWeight(rows, newer);
  }

  // The excess falls strictly inside the messages sent at t.
  predicate Crossing(rows: seq<Message>, excess: nat, t: int) {
    Before(rows, t) < excess < UpTo(rows, t)
  }

  // If the excess falls inside a group of peers, those long enough to be selected make up what is needed.
  predicate TieSafe(rows: seq<Message>, excess: nat, needed: int) {
    forall m <- rows :: !m.recalled && Crossing(rows, excess, m.createdAt) ==>
      Before(rows, m.createdAt) + LongPeers(rows, m.createdAt, UpTo(rows, m.createdAt) - excess) >= needed
  }

  lemma {:induction false} FreedAtCrossing(part: seq<Message>, all: seq<Message>, excess: nat, t: int)
    requires Crossing(all, excess, t) && forall m <- part :: m in all
    ensures Freed(part, all, excess) == Before(part, t) + LongPeers(part, t, UpTo(all, t) - excess)
  {
    if part != [] {
      FreedAtCrossing(part[1..], all, excess, t);
      var m := part[0];
      if m.createdAt < t {
        SumsOrdered(all, m.createdAt, t);
      } else if m.createdAt > t {
        SumsOrdered(all, t, m.createdAt);
        OwnWeight(all, m);
      }
    }
  }

  // Rows older than t are all selected once no row among them reaches beyond the excess.
  lemma {:induction false} FreedCovers(part: seq<Message>, all: seq<Message>, excess: nat, t: int)
    requires forall m <- part :: !m.recalled && m.createdAt < t ==> UpTo(all, m.createdAt) <= excess
    ensures Before(part, t) <= Freed(part, all, excess)
  {
    if part != [] {
      FreedCovers(part[1..], all, excess, t);
    }
  }

  lemma {:induction false} FreedAll(part: seq<Message>, all: seq<Message>, excess: nat)
    requires forall m <- part :: !m.recalled ==> UpTo(all, m.createdAt) <= excess
    ensures Freed(part, all, excess) == Kept(part)
  {
    if part != [] {
      FreedAll(part[1..], all, excess);
    }
  }

  lemma {:induction false} Earliest(ts: set<int>, start: int) returns (t: int)
    requires start in ts
    ensures t in ts && forall u <- ts :: t <= u
  {
    t := start;
    if u :| u in ts && u < t {
      var rest := ts - {t};
      assert forall v <- ts :: v == t || v in rest;
      t := Earliest(rest, u);
    }
  }

  /** A trim asked for the excess frees what is needed, or all text, exactly when no group of messages with
      equal created_at straddles the excess without making it up. No order of the rows is assumed. */
  lemma TrimFreesEnoughIff(rows: seq<Message>, excess: nat, needed: int)
    requires needed <= excess
    ensures Freed(rows, rows, excess) >= Min(needed, Kept(rows)) <==> TieSafe(rows, excess, needed)
  {
    if m :| m in rows && !m.recalled && Crossing(rows, excess, m.createdAt) {
      FreedAtCrossing(rows, rows, excess, m.createdAt);
      OwnWeight(rows, m);
      forall n <- rows | !n.recalled && Crossing(rows, excess, n.createdAt)
        ensures n.createdAt == m.createdAt
      {
        if n.createdAt < m.createdAt { SumsOrdered(rows, n.createdAt, m.createdAt); }
        if m.createdAt < n.createdAt { SumsOrdered(rows, m.createdAt, n.createdAt); }
      }
    } else {
      var over := set m | m in rows && !m.recalled && UpTo(rows, m.createdAt) > excess :: m.createdAt;
      assert forall m <- rows :: !m.recalled && UpTo(rows, m.createdAt) > excess ==> m.createdAt in over;
      if m :| m in rows && !m.recalled && UpTo(rows, m.createdAt) > excess {
        var t := Earliest(over, m.createdAt);
        FreedCovers(rows, rows, excess, t);
      } else {
        FreedAll(rows, rows, excess);
      }
    }
  }

  lemma {:induction false} FreedBounded(part: seq<Message>, all: seq<Message>, excess: nat, t: int)
    requires forall m <- part :: Selected(all, excess, m) && Len(m) > 0 ==> m.createdAt <= t
    ensures Freed(part, all, excess) <= UpTo(part, t)
  {
    if part != [] {
      FreedBounded(part[1..], all, excess, t);
    }
  }

  /** The trim never deletes more than it must: sparing the newest deleted text message would free
      less than the excess. */
  lemma TrimIsMinimal(rows: seq<Message>, excess: nat, newest: Message)
    requires newest in rows && Selected(rows, excess, newest) && Len(newest) > 0 && excess > 0
    requires forall m <- rows :: Selected(rows, excess, m) && Len(m) > 0 ==> m.createdAt <= newest.createdAt
    ensures Freed(rows, rows, excess) - Len(newest) < excess
  {
    FreedBounded(rows, rows, excess, newest.createdAt);
  }

  // ---- Distinct timestamps ----

  // No two non-recalled rows were sent at the same moment.
  predicate DistinctTimes(rows: seq<Message>) {
    rows != [] ==> (!rows[0].recalled ==> NoneAt(rows[1..], rows[0].createdAt)) && DistinctTimes(rows[1..])
  }

  predicate NoneAt(rows: seq<Message>, t: int) {
    forall m <- rows :: !m.recalled ==> m.createdAt != t
  }

  lemma {:induction false} NoPeers(rows: seq<Message>, t: int, bound: int)
    requires NoneAt(rows, t)
    ensures UpTo(rows, t) == Before(rows, t) && LongPeers(rows, t, bound) == 0
  {
    if rows != [] {
      NoPeers(rows[1..], t, bound);
    }
  }

  lemma {:induction false} OnlyPeer(rows: seq<Message>, m: Message, bound: int)
    requires DistinctTimes(rows) && m in rows && !m.recalled
    ensures UpTo(rows, m.createdAt) == Before(rows, m.createdAt) + Len(m)
    ensures LongPeers(rows, m.createdAt, bound) == if Len(m) > bound then Len(m) else 0
  {
    var rest := rows[1..];
    if rows[0] == m {
      NoPeers(rest, m.createdAt, bound);
    } else {
      OnlyPeer(rest, m, bound);
    }
  }

  /** What counts is text: a message adds its number of characters, and nothing if it is recalled or has an attachment
      only. */
  lemma OnlyTextCounts(m: Message, rows: seq<Message>)
    ensures Kept([]) == 0
    ensures Kept([m] + rows) == Kept(rows) + if m.recalled || m.content.None? then 0 else |m.content.value|
  {
    assert ([m] + rows)[1..] == rows;
  }

  /** Which messages a trim deletes if timestamps are distinct: those with text before which less than the excess was
      sent, and those without text before which no more than the excess was sent. */
  lemma TrimSelects(rows: seq<Message>, excess: nat, m: Message)
    requires DistinctTimes(rows) && m in rows && excess > 0
    ensures m.recalled ==> !Selected(rows, excess, m)
    ensures !m.recalled && m.content in {None, Some("")} ==>
      (Selected(rows, excess, m) <==> Before(rows, m.createdAt) <= excess)
    ensures !m.recalled && m.content !in {None, Some("")} ==>
      (Selected(rows, excess, m) <==> Before(rows, m.createdAt) < excess)
  {
    if !m.recalled {
      OnlyPeer(rows, m, 0);
    }
  }

  // Characters sent before t, counted once more: message by message.
  lemma BeforeCounts(m: Message, rows: seq<Message>, t: int)
    ensures Before([], t) == 0
    ensures Before([m] + rows, t) == Before(rows, t) + if m.createdAt < t then Kept([m]) else 0
  {
    assert ([m] + rows)[1..] == rows && [m][1..] == [];
  }

  /** With distinct timestamps the trim always frees min(excess, kept text). */
  lemma DistinctTimesFreeEnough(rows: seq<Message>, excess: nat)
    requires DistinctTimes(rows)
    ensures TieSafe(rows, excess, excess) && Freed(rows, rows, excess) >= Min(excess, Kept(rows))
  {
    forall m <- rows | !m.recalled && Crossing(rows, excess, m.createdAt)
      ensures Before(rows, m.createdAt) + LongPeers(rows, m.createdAt, UpTo(rows, m.createdAt) - excess) >= excess
    {
      OnlyPeer(rows, m, UpTo(rows, m.createdAt) - excess);
    }
    TrimFreesEnoughIff(rows, excess, excess);
  }

  // The sums over two messages of one moment.
  lemma TwoAtOnce(a: Message, b: Message, excess: nat)
    requires a.createdAt == b.createdAt && !a.recalled && !b.recalled
    ensures UpTo([a, b], a.createdAt) == Len(a) + Len(b) == Kept([a, b])
    ensures !Selected([a, b], excess, a) && !Selected([a, b], excess, b) ==>
      Freed([a, b], [a, b], excess) == 0 && Spared([a, b], [a, b], excess) == [a, b]
  {
    var t, all, none: seq<Message> := a.createdAt, [a, b], [];
    assert all[1..] == [b] && [b][1..] == none;
    assert Kept(none) == 0 && Kept([b]) == Kept(none) + Weight(b);
    assert UpTo(none, t) == 0 && UpTo([b], t) == UpTo(none, t) + Weight(b);
    assert Kept(all) == Kept([b]) + Weight(a) && UpTo(all, t) == UpTo([b], t) + Weight(a);
    if !Selected(all, excess, a) && !Selected(all, excess, b) {
      assert Freed(none, all, excess) == 0 && Freed([b], all, excess) == 0;
      assert Spared(none, all, excess) == none && Spared([b], all, excess) == [b] + none;
    }
  }

  /** With equal timestamps a trim can free nothing at all. */
  lemma TiesCanBlockTrim()
    ensures exists rows: seq<Message>, excess: nat :: Freed(rows, rows, excess) == 0 < Min(excess, Kept(rows))
  {
    var a := Message(1, 0, Some("12345"), None, false);
    var b := Message(2, 0, Some("67890"), None, false);
    TwoAtOnce(a, b, 3);
    assert Freed([a, b], [a, b], 3) == 0 < Min(3, Kept([a, b]));
  }

  // ---- The rows a trim deletes ----

  function Taken(part: seq<Message>, all: seq<Message>, excess: nat): (r: seq<Message>)
    ensures forall m :: m in r <==> m in part && Selected(all, excess, m)
    ensures Kept(r) == Freed(part, all, excess)
    ensures DistinctTimes(part) ==> DistinctTimes(r)
  {
    if part == [] then []
    else
      var rest := Taken(part[1..], all, excess);
      if Selected(all, excess, part[0]) then
        assert ([part[0]] + rest)[1..] == rest;
        [part[0]] + rest
      else rest
  }

  lemma {:induction false} TakenAndSpared(part: seq<Message>, all: seq<Message>, excess: nat)
    ensures multiset(Taken(part, all, excess)) + multiset(Spared(part, all, excess)) == multiset(part)
  {
    if part != [] {
      TakenAndSpared(part[1..], all, excess);
      assert part == [part[0]] + part[1..];
    }
  }

  // No row of the one was sent at the same moment as a row of the other.
  predicate Apart(rows: seq<Message>, others: seq<Message>) {
    forall m <- rows :: !m.recalled ==> NoneAt(others, m.createdAt)
  }

  lemma {:induction false} TakenApart(part: seq<Message>, all: seq<Message>, excess: nat)
    requires DistinctTimes(part)
    ensures Apart(Taken(part, all, excess), Spared(part, all, excess))
  {
    if part != [] {
      TakenApart(part[1..], all, excess);
    }
  }

  // What a rollback puts back joins rows that kept their distance.
  lemma {:induction false} Rejoined(gone: seq<Message>, rows: seq<Message>)
    ensures Kept(gone + rows) == Kept(gone) + Kept(rows)
    ensures DistinctTimes(gone) && DistinctTimes(rows) && Apart(gone, rows) ==> DistinctTimes(gone + rows)
  {
    if gone == [] {
      assert gone + rows == rows;
    } else {
      assert (gone + rows)[1..] == gone[1..] + rows;
      Rejoined(gone[1..], rows);
    }
  }

  // ---- The conversation as a state machine ----

  // Where the transaction of a send stands: the excess it computed, then the characters it deleted
  // and has not yet taken off the counter.
  datatype Phase = Measured(excess: int) | Trimmed(removed: nat) | Deducted

  // gone: the rows it deleted, which a rollback puts back.
  datatype Txn = Txn(msg: Message, phase: Phase, gone: seq<Message>)

  /** `owed` is history: characters deleted or recalled whose counter decrement is still to come. */
  datatype Conv = Conv(rows: seq<Message>, total: int, owed: int, txn: Option<Txn>)

  const EMPTY: Conv := Conv([], 0, 0, None)

  // The part of the debt that the running send will pay itself.
  function Reserved(c: Conv): nat {
    if c.txn.Some? && c.txn.value.phase.Trimmed? then c.txn.value.phase.removed else 0
  }

  // What the running send has taken off the counter and a rollback gives back.
  function Returned(c: Conv): nat {
    if c.txn.Some? && c.txn.value.phase.Deducted? then Kept(c.txn.value.gone) else 0
  }

  function Recalled(rows: seq<Message>, id: MessageId): (r: seq<Message>)
    ensures |r| == |rows|
    ensures forall i :: 0 <= i < |rows| ==>
      r[i] == if rows[i].id == id then Message(id, rows[i].createdAt, None, None, true) else rows[i]
    ensures forall m <- r :: !m.recalled ==> m in rows
    ensures Kept(r) <= Kept(rows)
    ensures DistinctTimes(rows) ==> DistinctTimes(r)
  {
    if rows == [] then []
    else
      var m := rows[0];
      var head := if m.id == id then m.(content := None, attachment := None, recalled := true) else m;
      var rest := Recalled(rows[1..], id);
      assert ([head] + rest)[1..] == rest;
      [head] + rest
  }

  /** Recalling a message owes the counter the length of that message alone. */
  lemma {:induction false} RecallOwesOne(rows: seq<Message>, i: nat)
    requires i < |rows| && forall k :: 0 <= k < |rows| && k != i ==> rows[k].id != rows[i].id
    ensures Kept(rows) - Kept(Recalled(rows, rows[i].id)) == if rows[i].recalled then 0 else Len(rows[i])
  {
    if i == 0 {
      RecallMissesAll(rows[1..], rows[0].id);
    } else {
      assert rows[1..][i - 1] == rows[i];
      RecallOwesOne(rows[1..], i - 1);
    }
  }

  lemma {:induction false} RecallMissesAll(rows: seq<Message>, id: MessageId)
    requires forall m <- rows :: m.id != id
    ensures Recalled(rows, id) == rows
  {
    if rows != [] {
      RecallMissesAll(rows[1..], id);
    }
  }

  function Without(rows: seq<Message>, ids: set<MessageId>): (r: seq<Message>)
    ensures forall m <- r :: m in rows
    ensures Kept(r) <= Kept(rows)
    ensures DistinctTimes(rows) ==> DistinctTimes(r)
  {
    if rows == [] then []
    else
      var rest := Without(rows[1..], ids);
      assert ([rows[0]] + rest)[1..] == rest;
      if rows[0].id in ids then rest else [rows[0]] + rest
  }

  datatype Command =
    | Measure(msg: Message)        // advisory lock taken, total_chars read
    | Trim                         // DELETE .. RETURNING
    | Deduct                       // total_chars := GREATEST(0, total_chars - removed)
    | Commit                       // INSERT, total_chars := GREATEST(0, total_chars + content_len)
    | Rollback                     // the deleted rows and the counter come back
    | Recall(id: MessageId)        // recall_message
    | Expire(ids: set<MessageId>)  // delete_messages_by_ids
    | Settle(delta: nat)           // increment_char_count(-delta)
    | Prune(excess: nat)           // delete_oldest_messages_by_chars

  function Floor(total: int): int {
    Max(0, total)
  }

  // A command that is not legal does nothing.
  function Apply(cap: nat, c: Conv, cmd: Command): Conv {
    if !Legal(cap, c, cmd) then c else
    match cmd
    case Measure(m) => c.(txn := Some(Txn(m, Measured(if Len(m) > 0 then c.total + Len(m) - cap else 0), [])))
    case Trim =>
      var x := c.txn.value.phase.excess;
      if x > 0 then
        var freed := Freed(c.rows, c.rows, x);
        c.(rows := Spared(c.rows, c.rows, x), owed := c.owed + freed,
           txn := Some(Txn(c.txn.value.msg, Trimmed(freed), Taken(c.rows, c.rows, x))))
      else c.(txn := Some(Txn(c.txn.value.msg, Trimmed(0), [])))
    case Deduct =>
      c.(total := Floor(c.total - Reserved(c)), owed := c.owed - Reserved(c), txn := Some(c.txn.value.(phase := Deducted)))
    case Commit =>
      c.(rows := [c.txn.value.msg] + c.rows, total := Floor(c.total + Len(c.txn.value.msg)), txn := None)
    case Rollback =>
      var t := c.txn.value;
      Conv(t.gone + c.rows, c.total + Returned(c), c.owed - Reserved(c), None)
    case Recall(id) =>
      var rows := Recalled(c.rows, id);
      c.(rows := rows, owed := c.owed + Kept(c.rows) - Kept(rows))
    case Expire(ids) =>
      var rows := Without(c.rows, ids);
      c.(rows := rows, owed := c.owed + Kept(c.rows) - Kept(rows))
    case Settle(d) => c.(total := Floor(c.total - d), owed := c.owed - d)
    case Prune(x) => c.(rows := Spared(c.rows, c.rows, x), total := Floor(c.total - Freed(c.rows, c.rows, x)))
  }

  /** The advisory lock keeps sends apart; a message fits the cap; a decrement follows the recall or deletion
      it belongs to. */
  predicate Legal(cap: nat, c: Conv, cmd: Command) {
    match cmd
    case Measure(m) => c.txn == None && !m.recalled && Len(m) <= cap
    case Trim => c.txn.Some? && c.txn.value.phase.Measured?
    case Deduct => c.txn.Some? && c.txn.value.phase.Trimmed?
    case Commit => c.txn.Some? && c.txn.value.phase == Deducted
    case Rollback => c.txn.Some?
    case Settle(d) => d <= c.owed - Reserved(c)
    case _ => true
  }

  type Run = RunOf<Command>

  function Exec(cap: nat, run: Run): Conv {
    match run
    case Start => EMPTY
    case Then(before, cmd) => Apply(cap, Exec(cap, before), cmd)
  }

  predicate LegalRun(cap: nat, run: Run) {
    match run
    case Start => true
    case Then(before, cmd) => LegalRun(cap, before) && Legal(cap, Exec(cap, before), cmd)
  }

  // ---- The counter ----

  // The counter is the kept text plus the decrements still pending; a waiting send asked for enough.
  ghost predicate Counted(cap: nat, c: Conv) {
    && c.total == Kept(c.rows) + c.owed
    && Reserved(c) <= c.owed
    && (c.txn.Some? ==> InHand(cap, c, c.txn.value))
  }

  ghost predicate InHand(cap: nat, c: Conv, t: Txn) {
    && !t.msg.recalled && Len(t.msg) <= cap
    && match t.phase
       case Measured(excess) =>
         t.gone == [] && if Len(t.msg) > 0 then excess >= Kept(c.rows) + Len(t.msg) - cap else excess <= 0
       case Trimmed(removed) => Kept(t.gone) == removed
       case Deducted => true
  }

  lemma TrimKeepsCounted(cap: nat, c: Conv)
    requires Counted(cap, c) && Legal(cap, c, Trim)
    ensures Counted(cap, Apply(cap, c, Trim))
  {
    assert Kept([]) == 0;
  }

  lemma RollbackKeepsCounted(cap: nat, c: Conv)
    requires Counted(cap, c) && Legal(cap, c, Rollback)
    ensures Counted(cap, Apply(cap, c, Rollback))
  {
    Rejoined(c.txn.value.gone, c.rows);
    assert Kept([]) == 0;
  }

  lemma CommitKeepsCounted(cap: nat, c: Conv)
    requires Counted(cap, c) && Legal(cap, c, Commit)
    ensures Counted(cap, Apply(cap, c, Commit))
  {
    assert ([c.txn.value.msg] + c.rows)[1..] == c.rows;
  }

  lemma StepKeepsCounted(cap: nat, c: Conv, cmd: Command)
    requires Counted(cap, c) && Legal(cap, c, cmd)
    ensures Counted(cap, Apply(cap, c, cmd))
  {
    hide Taken, Spared, Recalled, Without;
    match cmd
    case Trim => TrimKeepsCounted(cap, c);
    case Rollback => RollbackKeepsCounted(cap, c);
    case Commit => CommitKeepsCounted(cap, c);
    case Measure(_) => assert Kept([]) == 0;
    case _ =>
  }

  /** Over every interleaving of the statements of sends, recalls, expiries, prunings and delayed decrements,
      whether the sends commit or roll back and whatever timestamps the messages carry: the counter is the
      kept text plus the decrements still pending. */
  lemma {:induction false} CounterHolds(cap: nat, run: Run)
    requires LegalRun(cap, run)
    ensures Counted(cap, Exec(cap, run))
  {
    if run.Then? {
      CounterHolds(cap, run.before);
      StepKeepsCounted(cap, Exec(cap, run.before), run.cmd);
    }
  }

  // ---- The cap ----

  // The text fits, also if the running send rolls back, and a send that has trimmed has room for its message.
  ghost predicate Fits(cap: nat, c: Conv) {
    && Kept(c.rows) <= cap
    && (c.txn.Some? ==>
          && Kept(c.txn.value.gone) + Kept(c.rows) <= cap
          && (!c.txn.value.phase.Measured? && Len(c.txn.value.msg) > 0 ==> Kept(c.rows) + Len(c.txn.value.msg) <= cap))
  }

  // The trim leaves too little room: the excess falls among messages of one moment that do not make it up.
  predicate Jams(cap: nat, c: Conv, cmd: Command) {
    cmd.Trim? && Legal(cap, c, cmd) &&
    var t := c.txn.value;
    t.phase.excess > 0 && !TieSafe(c.rows, t.phase.excess, Kept(c.rows) + Len(t.msg) - cap)
  }

  lemma TrimFitsIff(cap: nat, c: Conv)
    requires Counted(cap, c) && Fits(cap, c) && Legal(cap, c, Trim)
    ensures Fits(cap, Apply(cap, c, Trim)) <==> !Jams(cap, c, Trim)
  {
    var t := c.txn.value;
    assert Kept([]) == 0;
    if t.phase.excess > 0 {
      TrimFreesEnoughIff(c.rows, t.phase.excess, Kept(c.rows) + Len(t.msg) - cap);
    }
  }

  lemma StaysFitIff(cap: nat, c: Conv, cmd: Command)
    requires Counted(cap, c) && Fits(cap, c) && Legal(cap, c, cmd)
    ensures Fits(cap, Apply(cap, c, cmd)) <==> !Jams(cap, c, cmd)
  {
    hide Taken, Spared, Recalled, Without, Freed, TieSafe;
    match cmd
    case Trim => TrimFitsIff(cap, c);
    case Rollback => Rejoined(c.txn.value.gone, c.rows);
    case Commit => assert ([c.txn.value.msg] + c.rows)[1..] == c.rows;
    case Measure(_) => assert Kept([]) == 0;
    case _ =>
  }

  ghost predicate AlwaysFits(cap: nat, run: Run) {
    Fits(cap, Exec(cap, run)) && (run.Then? ==> AlwaysFits(cap, run.before))
  }

  ghost predicate NeverJams(cap: nat, run: Run) {
    run.Then? ==> NeverJams(cap, run.before) && !Jams(cap, Exec(cap, run.before), run.cmd)
  }

  /** At every moment of a run the text fits the cap and a send that has trimmed has room, if and only if the
      excess of no trim falls among messages of one moment that do not make up what is needed. */
  lemma {:induction false} CapIff(cap: nat, run: Run)
    requires LegalRun(cap, run)
    ensures AlwaysFits(cap, run) <==> NeverJams(cap, run)
  {
    assert Kept([]) == 0;
    if run.Then? {
      CapIff(cap, run.before);
      CounterHolds(cap, run.before);
      if AlwaysFits(cap, run.before) {
        StaysFitIff(cap, Exec(cap, run.before), run.cmd);
      }
    }
  }

  // ---- Messages with timestamps of their own ----

  // Each message is sent at a moment that no other row of the conversation has.
  ghost predicate OwnTimes(cap: nat, run: Run) {
    run.Then? ==> OwnTimes(cap, run.before) && (run.cmd.Measure? ==> NoneAt(Exec(cap, run.before).rows, run.cmd.msg.createdAt))
  }

  // No two rows share a moment, also if the running send commits or rolls back.
  ghost predicate AllDistinct(c: Conv) {
    && DistinctTimes(c.rows)
    && (c.txn.Some? ==>
          && DistinctTimes(c.txn.value.gone) && Apart(c.txn.value.gone, c.rows)
          && NoneAt(c.rows, c.txn.value.msg.createdAt))
  }

  lemma StepKeepsDistinct(cap: nat, c: Conv, cmd: Command)
    requires AllDistinct(c) && Counted(cap, c) && Legal(cap, c, cmd)
    requires cmd.Measure? ==> NoneAt(c.rows, cmd.msg.createdAt)
    ensures AllDistinct(Apply(cap, c, cmd)) && !Jams(cap, c, cmd)
  {
    hide Taken, Spared, Recalled, Without, Kept, Freed, Selected;
    match cmd
    case Trim =>
      var t := c.txn.value;
      if t.phase.excess > 0 {
        DistinctTimesFreeEnough(c.rows, t.phase.excess);
        TakenApart(c.rows, c.rows, t.phase.excess);
        assert TieSafe(c.rows, t.phase.excess, Kept(c.rows) + Len(t.msg) - cap);
      }
    case Rollback =>
      Rejoined(c.txn.value.gone, c.rows);
    case Commit =>
      assert ([c.txn.value.msg] + c.rows)[1..] == c.rows;
    case _ =>
  }

  lemma {:induction false} OwnTimesNeverJam(cap: nat, run: Run)
    requires LegalRun(cap, run) && OwnTimes(cap, run)
    ensures AllDistinct(Exec(cap, run)) && NeverJams(cap, run)
  {
    if run.Then? {
      OwnTimesNeverJam(cap, run.before);
      CounterHolds(cap, run.before);
      StepKeepsDistinct(cap, Exec(cap, run.before), run.cmd);
    }
  }

  /** In every run the counter is the kept text plus the decrements still pending; the kept text stays within
      the cap if no trim jams, and so in particular if each message has a moment of its own. */
  lemma CapAndCounterHold(cap: nat, run: Run)
    requires LegalRun(cap, run)
    ensures Counted(cap, Exec(cap, run))
    ensures Exec(cap, run).total == Kept(Exec(cap, run).rows) + Exec(cap, run).owed
    ensures NeverJams(cap, run) || OwnTimes(cap, run) ==> Kept(Exec(cap, run).rows) <= cap
  {
    CounterHolds(cap, run);
    CapIff(cap, run);
    if OwnTimes(cap, run) {
      OwnTimesNeverJam(cap, run);
    }
  }

  // ---- Whole sends ----

  // What a send asks to be freed.
  function Excess(cap: nat, c: Conv, m: Message): int {
    if Len(m) > 0 then c.total + Len(m) - cap else 0
  }

  function Sent(run: Run, m: Message): Run {
    Then(Then(Then(Then(run, Measure(m)), Trim), Deduct), Commit)
  }

  function RowsLeft(rows: seq<Message>, excess: int): seq<Message> {
    if excess > 0 then Spared(rows, rows, excess) else rows
  }

  function RowsTaken(rows: seq<Message>, excess: int): seq<Message> {
    if excess > 0 then Taken(rows, rows, excess) else []
  }

  lemma RowsSplit(rows: seq<Message>, excess: int)
    ensures Kept(RowsTaken(rows, excess)) == Kept(rows) - Kept(RowsLeft(rows, excess))
    ensures multiset(RowsTaken(rows, excess)) + multiset(RowsLeft(rows, excess)) == multiset(rows)
    ensures excess > 0 ==> Freed(rows, rows, excess) == Kept(rows) - Kept(RowsLeft(rows, excess))
  {
    if excess > 0 {
      TakenAndSpared(rows, rows, excess);
      assert Kept(Spared(rows, rows, excess)) + Freed(rows, rows, excess) == Kept(rows);
    }
  }

  lemma TrimTakes(cap: nat, c: Conv, x: int)
    requires Legal(cap, c, Trim) && c.txn.value.phase == Measured(x) && c.txn.value.gone == []
    ensures var rows, left := c.rows, RowsLeft(c.rows, x);
      Kept(left) <= Kept(rows) &&
      Apply(cap, c, Trim) == Conv(left, c.total, c.owed + Kept(rows) - Kept(left),
        Some(Txn(c.txn.value.msg, Trimmed(Kept(rows) - Kept(left)), RowsTaken(rows, x))))
  {
    RowsSplit(c.rows, x);
    hide Kept, Taken, Spared, Freed;
  }

  lemma TrimOfSend(cap: nat, c: Conv, m: Message)
    requires Counted(cap, c) && Legal(cap, c, Measure(m))
    ensures var trimmed := Apply(cap, Apply(cap, c, Measure(m)), Trim);
      && trimmed.rows == RowsLeft(c.rows, Excess(cap, c, m)) && trimmed.total == c.total
      && trimmed.txn.Some? && trimmed.txn.value.msg == m && Kept(trimmed.rows) <= Kept(c.rows)
      && trimmed.txn.value.phase == Trimmed(Kept(c.rows) - Kept(trimmed.rows))
      && trimmed.owed == c.owed + Kept(c.rows) - Kept(trimmed.rows)
      && Kept(trimmed.txn.value.gone) == Kept(c.rows) - Kept(trimmed.rows)
      && multiset(trimmed.txn.value.gone) + multiset(trimmed.rows) == multiset(c.rows)
  {
    var measured := Apply(cap, c, Measure(m));
    assert measured == c.(txn := Some(Txn(m, Measured(Excess(cap, c, m)), [])));
    RowsSplit(c.rows, Excess(cap, c, m));
    hide Apply, Kept, RowsTaken, RowsLeft;
    TrimTakes(cap, measured, Excess(cap, c, m));
  }

  lemma DeductOfSend(cap: nat, c: Conv, m: Message)
    requires Counted(cap, c) && Legal(cap, c, Measure(m))
    ensures var trimmed := Apply(cap, Apply(cap, c, Measure(m)), Trim);
      Apply(cap, trimmed, Deduct) == trimmed.(
        total := Kept(trimmed.rows) + c.owed, owed := c.owed, txn := Some(trimmed.txn.value.(phase := Deducted)))
  {
    TrimOfSend(cap, c, m);
    hide RowsLeft, Excess, Kept, InHand;
    var trimmed := Apply(cap, Apply(cap, c, Measure(m)), Trim);
    DeductPays(cap, trimmed, Kept(trimmed.rows) + c.owed, c.owed);
  }

  lemma DeductPays(cap: nat, c: Conv, total: nat, owed: int)
    requires Legal(cap, c, Deduct) && c.total - Reserved(c) == total && c.owed - Reserved(c) == owed
    ensures Apply(cap, c, Deduct) == c.(total := total, owed := owed, txn := Some(c.txn.value.(phase := Deducted)))
  {
  }

  /** A send that rolls back after its deduction leaves the rows and the counter as it found them. */
  lemma RollbackUndoesSend(cap: nat, c: Conv, m: Message)
    requires Counted(cap, c) && Legal(cap, c, Measure(m))
    ensures var left := Apply(cap, Apply(cap, Apply(cap, Apply(cap, c, Measure(m)), Trim), Deduct), Rollback);
      multiset(left.rows) == multiset(c.rows) && left.total == c.total && left.owed == c.owed && left.txn == None
  {
    TrimOfSend(cap, c, m);
    DeductOfSend(cap, c, m);
    hide RowsLeft, Excess, Kept, InHand;
    var trimmed := Apply(cap, Apply(cap, c, Measure(m)), Trim);
    RollbackRestores(cap, Apply(cap, trimmed, Deduct));
  }

  lemma RollbackRestores(cap: nat, c: Conv)
    requires Legal(cap, c, Rollback) && c.txn.value.phase.Deducted?
    ensures var left := Apply(cap, c, Rollback);
      && multiset(left.rows) == multiset(c.txn.value.gone) + multiset(c.rows) && left.owed == c.owed && left.txn == None
      && left.total == c.total + Kept(c.txn.value.gone)
  {
  }

  lemma SendAlone(cap: nat, run: Run, m: Message)
    requires LegalRun(cap, run) && Legal(cap, Exec(cap, run), Measure(m))
    ensures var c, rows := Exec(cap, run), RowsLeft(Exec(cap, run).rows, Excess(cap, Exec(cap, run), m));
      LegalRun(cap, Sent(run, m)) && Exec(cap, Sent(run, m)) == Conv([m] + rows, Kept(rows) + c.owed + Len(m), c.owed, None)
  {
    CounterHolds(cap, run);
    var c := Exec(cap, run);
    TrimOfSend(cap, c, m);
    DeductOfSend(cap, c, m);
    hide Apply, RowsLeft, Excess, Kept;
    var r1 := Then(run, Measure(m));
    var r2 := Then(r1, Trim);
    var r3 := Then(r2, Deduct);
    assert LegalRun(cap, r1);
    MeasuredNext(cap, c, m);
    assert LegalRun(cap, r2) && LegalRun(cap, r3);
    CommitAdds(cap, Exec(cap, r3), m);
  }

  lemma MeasuredNext(cap: nat, c: Conv, m: Message)
    requires Legal(cap, c, Measure(m))
    ensures Legal(cap, Apply(cap, c, Measure(m)), Trim)
  {
  }

  lemma CommitAdds(cap: nat, c: Conv, m: Message)
    requires Legal(cap, c, Commit) && c.txn.value.msg == m && c.total >= 0
    ensures Apply(cap, c, Commit) == Conv([m] + c.rows, c.total + Len(m), c.owed, None)
  {
  }

  /** A send that nothing disturbs, with no decrement pending, keeps the cap if and only if the excess does not
      fall among messages of one moment that do not make it up. */
  lemma SendFitsIff(cap: nat, run: Run, m: Message)
    requires LegalRun(cap, run) && Legal(cap, Exec(cap, run), Measure(m))
    requires Exec(cap, run).owed == 0 && Kept(Exec(cap, run).rows) <= cap
    ensures var c, x := Exec(cap, run), Excess(cap, Exec(cap, run), m);
      Kept(Exec(cap, Sent(run, m)).rows) <= cap <==> (x > 0 ==> TieSafe(c.rows, x, x))
  {
    CounterHolds(cap, run);
    SendAlone(cap, run, m);
    var c, x := Exec(cap, run), Excess(cap, Exec(cap, run), m);
    assert ([m] + RowsLeft(c.rows, x))[1..] == RowsLeft(c.rows, x);
    hide Exec, Sent;
    if x > 0 {
      TrimFreesEnoughIff(c.rows, x, x);
    }
  }

  /** Two messages of five characters sent at one moment and a third of three: the cap is ten, and the third
      send leaves thirteen characters. */
  lemma TiedSendsOverflow() returns (run: Run)
    ensures LegalRun(10, run) && Exec(10, run).txn == None && Kept(Exec(10, run).rows) == 13
  {
    var a := Message(1, 0, Some("12345"), None, false);
    var b := Message(2, 0, Some("67890"), None, false);
    var c := Message(3, 1, Some("abc"), None, false);
    run := TiedSends(10, a, b, c);
  }

  lemma TiedSends(cap: nat, a: Message, b: Message, c: Message) returns (run: Run)
    requires cap == 10 && Len(a) == 5 && Len(b) == 5 && Len(c) == 3
    requires !a.recalled && !b.recalled && !c.recalled && a.createdAt == b.createdAt
    ensures LegalRun(cap, run) && Exec(cap, run).txn == None && Kept(Exec(cap, run).rows) == 13
  {
    assert [a] + [] == [a] && [b] + [a] == [b, a];
    assert LegalRun(cap, Start) && Exec(cap, Start) == EMPTY;
    hide Exec, LegalRun, Sent, Selected, UpTo, Spared;
    RoomySend(cap, Start, a);
    RoomySend(cap, Sent(Start, a), b);
    run := ThirdOfTied(cap, Sent(Sent(Start, a), b), a, b, c);
  }

  lemma ThirdOfTied(cap: nat, second: Run, a: Message, b: Message, c: Message) returns (run: Run)
    requires cap == 10 && Len(a) == 5 && Len(b) == 5 && Len(c) == 3
    requires !a.recalled && !b.recalled && !c.recalled && a.createdAt == b.createdAt
    requires LegalRun(cap, second) && Exec(cap, second) == Conv([b, a], 10, 0, None)
    ensures LegalRun(cap, run) && Exec(cap, run).txn == None && Kept(Exec(cap, run).rows) == 13
  {
    TwoAtOnce(b, a, 3);
    assert !Selected([b, a], 3, b) && !Selected([b, a], 3, a);
    assert Kept([c] + [b, a]) == 13 by {
      assert ([c] + [b, a])[1..] == [b, a];
    }
    hide Exec, LegalRun, Sent, Selected, UpTo, Spared, Kept;
    SendAlone(cap, second, c);
    run := Sent(second, c);
    assert RowsLeft([b, a], 3) == [b, a];
  }

  // Without an excess nothing is trimmed.
  lemma RoomySend(cap: nat, run: Run, m: Message)
    requires LegalRun(cap, run) && Legal(cap, Exec(cap, run), Measure(m)) && Excess(cap, Exec(cap, run), m) <= 0
    ensures LegalRun(cap, Sent(run, m))
    ensures var c := Exec(cap, run); Exec(cap, Sent(run, m)) == Conv([m] + c.rows, c.total + Len(m), c.owed, None)
  {
    CounterHolds(cap, run);
    hide Exec, LegalRun, Sent;
    SendAlone(cap, run, m);
  }

  // What the counter would become without GREATEST(0, ..).
  function Unfloored(cap: nat, c: Conv, cmd: Command): int
    requires Legal(cap, c, cmd)
  {
    match cmd
    case Deduct => c.total - Reserved(c)
    case Commit => c.total + Len(c.txn.value.msg)
    case Rollback => c.total + Returned(c)
    case Settle(d) => c.total - d
    case Prune(x) => c.total - Freed(c.rows, c.rows, x)
    case _ => c.total
  }

  /** In no run does the floor GREATEST(0, ..) change the counter. */
  lemma FloorNeverBites(cap: nat, before: Run, cmd: Command)
    requires LegalRun(cap, Then(before, cmd))
    ensures Exec(cap, Then(before, cmd)).total == Unfloored(cap, Exec(cap, before), cmd)
    ensures Exec(cap, Then(before, cmd)).total >= 0
  {
    CounterHolds(cap, before);
    CounterHolds(cap, Then(before, cmd));
    hide LegalRun, Taken, Spared, Recalled, Without;
  }

  lemma PruneShrinksIff(rows: seq<Message>, excess: nat)
    ensures Kept(Spared(rows, rows, excess)) <= Max(0, Kept(rows) - excess) <==> TieSafe(rows, excess, excess)
    ensures Kept(Spared(rows, rows, excess)) == Kept(rows) - Freed(rows, rows, excess)
  {
    TrimFreesEnoughIff(rows, excess, excess);
    hide TieSafe, Spared, Freed;
    assert Kept(Spared(rows, rows, excess)) + Freed(rows, rows, excess) == Kept(rows);
  }

  lemma PruneIs(cap: nat, c: Conv, excess: nat)
    requires Counted(cap, c)
    ensures Legal(cap, c, Prune(excess)) && Freed(c.rows, c.rows, excess) <= c.total
    ensures Apply(cap, c, Prune(excess)) ==
      c.(rows := Spared(c.rows, c.rows, excess), total := c.total - Freed(c.rows, c.rows, excess))
  {
    hide Freed, Spared;
    assert Kept(Spared(c.rows, c.rows, excess)) + Freed(c.rows, c.rows, excess) == Kept(c.rows);
  }

  lemma {:induction false} SparedMembers(part: seq<Message>, all: seq<Message>, excess: nat)
    ensures forall r :: r in Spared(part, all, excess) <==> r in part && !Selected(all, excess, r)
  {
    if part != [] {
      SparedMembers(part[1..], all, excess);
      assert part == [part[0]] + part[1..];
    }
  }

  lemma LeftIs(rows: seq<Message>, excess: int)
    ensures excess > 0 ==> RowsLeft(rows, excess) == Spared(rows, rows, excess)
    ensures excess > 0 ==> Freed(rows, rows, excess) == Kept(rows) - Kept(RowsLeft(rows, excess))
    ensures excess <= 0 ==> RowsLeft(rows, excess) == rows
    ensures forall r :: r in RowsLeft(rows, excess) <==> r in rows && !(excess > 0 && Selected(rows, excess, r))
  {
    RowsSplit(rows, excess);
    if excess > 0 {
      SparedMembers(rows, rows, excess);
    }
  }

  // ---- The repository functions ----

  // The DELETE of a trim: the rows that stay, those returned, and their total length.
  method TrimRows(rows: seq<Message>, excess: nat) returns (kept: seq<Message>, deleted: seq<Message>, removed: nat)
    ensures kept == Spared(rows, rows, excess) && removed == Freed(rows, rows, excess)
    ensures deleted == [] ==> removed == 0
    ensures forall m :: m in deleted <==> m in rows && Selected(rows, excess, m)
  {
    kept, deleted, removed := [], [], 0;
    for n := |rows| downto 0
      invariant kept == Spared(rows[n..], rows, excess) && removed == Freed(rows[n..], rows, excess)
      invariant deleted == [] ==> removed == 0
      invariant forall m :: m in deleted <==> m in rows[n..] && Selected(rows, excess, m)
    {
      assert rows[n..][1..] == rows[n + 1..];
      if Selected(rows, excess, rows[n]) {
        deleted := [rows[n]] + deleted;
        removed := removed + Len(rows[n]);
      } else {
        kept := [rows[n]] + kept;
      }
    }
    assert rows[0..] == rows;
  }

  // These are the rows that the send waiting at this moment must delete.
  ghost predicate RemovedAt(cap: nat, moment: Run, deleted: seq<Message>) {
    var c := Exec(cap, moment);
    c.txn.Some? && c.txn.value.phase.Measured? &&
    var excess := c.txn.value.phase.excess;
    forall d :: d in deleted <==> excess > 0 && d in c.rows && Selected(c.rows, excess, d)
  }

  // The UPDATE of a recall, and whether it found the row.
  method RecallRows(rows: seq<Message>, id: MessageId) returns (updated: seq<Message>, found: bool)
    ensures updated == Recalled(rows, id) && (found <==> exists m <- rows :: m.id == id)
  {
    updated, found := [], false;
    for n := |rows| downto 0
      invariant updated == Recalled(rows[n..], id) && (found <==> exists m <- rows[n..] :: m.id == id)
    {
      assert rows[n..][1..] == rows[n + 1..];
      var m := rows[n];
      found := found || m.id == id;
      updated := [if m.id == id then m.(content := None, attachment := None, recalled := true) else m] + updated;
    }
    assert rows[0..] == rows;
  }

  // Exactly the rows the predicate selects go, none if there is no excess, and the counter stays.
  ghost predicate Trims(excess: int, before: Conv, deleted: seq<Message>, after: Conv) {
    && (forall d :: d in deleted <==> excess > 0 && d in before.rows && Selected(before.rows, excess, d))
    && (forall r :: r in after.rows <==> r in before.rows && r !in deleted)
    && after.total == before.total
  }

  ghost predicate TrimStep(cap: nat, moment: Run, excess: int, deleted: seq<Message>) {
    moment.Then? && moment.cmd == Trim && Trims(excess, Exec(cap, moment.before), deleted, Exec(cap, moment))
  }

  lemma TrimIs(cap: nat, before: Run, excess: int)
    requires LegalRun(cap, before) && Legal(cap, Exec(cap, before), Trim)
    requires Exec(cap, before).txn.value.phase == Measured(excess)
    ensures var c := Exec(cap, before);
      var left, freed := RowsLeft(c.rows, excess), Kept(c.rows) - Kept(RowsLeft(c.rows, excess));
      && freed >= 0 && Gone(cap, Then(before, Trim)) == freed
      && (excess > 0 ==> left == Spared(c.rows, c.rows, excess) && freed == Freed(c.rows, c.rows, excess))
      && (excess <= 0 ==> left == c.rows && freed == 0)
      && Apply(cap, c, Trim) == Conv(
           left, c.total, c.owed + freed, Some(Txn(c.txn.value.msg, Trimmed(freed), RowsTaken(c.rows, excess))))
  {
    hide *;
    var c := Exec(cap, before);
    NothingGone(cap, before);
    LeftIs(c.rows, excess);
    TrimTakes(cap, c, excess);
    GoneIs(cap, before);
  }

  lemma NothingGone(cap: nat, before: Run)
    requires LegalRun(cap, before) && Legal(cap, Exec(cap, before), Trim)
    ensures Exec(cap, before).txn.Some? && Exec(cap, before).txn.value.gone == []
  {
    CounterHolds(cap, before);
    hide Exec, LegalRun, Kept;
  }

  lemma GoneIs(cap: nat, before: Run)
    ensures Gone(cap, Then(before, Trim)) == Kept(Exec(cap, before).rows) - Kept(Apply(cap, Exec(cap, before), Trim).rows)
  {
    hide Apply, Kept;
  }

  lemma TrimStepIs(cap: nat, before: Run, excess: int, deleted: seq<Message>)
    requires LegalRun(cap, before) && Legal(cap, Exec(cap, before), Trim)
    requires Exec(cap, before).txn.value.phase == Measured(excess)
    requires forall d ::
      d in deleted <==> excess > 0 && d in Exec(cap, before).rows && Selected(Exec(cap, before).rows, excess, d)
    ensures TrimStep(cap, Then(before, Trim), excess, deleted) && RemovedAt(cap, before, deleted)
  {
    TrimIs(cap, before, excess);
    LeftIs(Exec(cap, before).rows, excess);
    hide Selected, Kept, RowsTaken, RowsLeft, Apply, Gone, LegalRun;
  }

  ghost predicate DeductStep(cap: nat, moment: Run, removed: int) {
    && moment.Then? && moment.cmd == Deduct && Exec(cap, moment).rows == Exec(cap, moment.before).rows
    && Exec(cap, moment).total == Exec(cap, moment.before).total - removed
  }

  ghost predicate CommitStep(cap: nat, moment: Run, m: Message) {
    && moment.Then? && moment.cmd == Commit && Exec(cap, moment).rows == [m] + Exec(cap, moment.before).rows
    && Exec(cap, moment).total == Exec(cap, moment.before).total + Len(m)
  }

  // What the send asks for, going by the counter when it takes the lock.
  function Asked(cap: nat, start: Run, m: Message): int {
    if Len(m) > 0 then Exec(cap, start).total + Len(m) - cap else 0
  }

  // The text a statement took away.
  function Gone(cap: nat, moment: Run): int {
    if moment.Then? then Kept(Exec(cap, moment.before).rows) - Kept(Exec(cap, moment).rows) else 0
  }

  /** The four statements of a send and nothing else, with what each of them does to the rows and the counter;
      others may run in between. */
  ghost predicate SendSteps(cap: nat, start: Run, end: Run, m: Message, deleted: seq<Message>, steps: seq<Run>) {
    && |steps| == 4 && steps[0] == Then(start, Measure(m)) && steps[3] == end
    && TrimStep(cap, steps[1], Asked(cap, start, m), deleted) && Within(steps[0], steps[1].before)
    && DeductStep(cap, steps[2], Gone(cap, steps[1])) && Within(steps[1], steps[2].before)
    && CommitStep(cap, end, m) && Within(steps[2], end.before)
  }

  class ConversationStore {
    const cap: nat
    var rows: seq<Message>
    var total: int
    ghost var owed: int
    ghost var txn: Option<Txn>
    ghost var log: Run
    ghost var own: seq<Run>  // the moments right after the statements of the methods of this object

    ghost function State(): Conv
      reads this
    {
      Conv(rows, total, owed, txn)
    }

    ghost predicate Valid()
      reads this
    {
      LegalRun(cap, log) && State() == Exec(cap, log)
    }

    constructor (cap: nat)
      ensures Valid() && log == Start && this.cap == cap
    {
      this.cap := cap;
      rows, total, owed, txn, log, own := [], 0, 0, None, Start, [];
    }

    // The running send has got this far with the message.
    ghost predicate Sending(m: Message, phase: Phase)
      reads this
    {
      txn.Some? && txn.value.msg == m && txn.value.phase == phase
    }

    // Statements of other transactions. Those of other sends wait for the advisory lock.
    method Interference()
      requires Valid()
      modifies this
      ensures Valid() && Within(old(log), log)
      ensures txn == old(txn) && own == old(own)
    {
    }

    ghost method Record(cmd: Command)
      requires LegalRun(cap, log) && Legal(cap, Exec(cap, log), cmd)
      requires State().(owed := 0, txn := None) == Apply(cap, Exec(cap, log), cmd).(owed := 0, txn := None)
      modifies this`owed, this`txn, this`log, this`own
      ensures own == old(own) + [log]
      ensures Valid() && log == Then(old(log), cmd) && State() == Apply(cap, Exec(cap, old(log)), cmd)
    {
      var next := Apply(cap, Exec(cap, log), cmd);
      owed, txn := next.owed, next.txn;
      log := Then(log, cmd);
      own := own + [log];
    }

    // ---- The statements of a send ----

    method LockAndMeasure(m: Message) returns (excess: int)
      requires Valid() && Legal(cap, State(), Measure(m))
      modifies this`owed, this`txn, this`log, this`own
      ensures Valid() && log == Then(old(log), Measure(m)) && own == old(own) + [log]
      ensures excess == Asked(cap, old(log), m)
      ensures Sending(m, Measured(excess))
    {
      excess := if Len(m) > 0 then total + Len(m) - cap else 0;
      Record(Measure(m));
    }

    method TrimExcess(m: Message, excess: int) returns (deleted: seq<Message>, removed: nat)
      requires Valid() && Sending(m, Measured(excess))
      modifies this
      ensures Valid() && log == Then(old(log), Trim) && own == old(own) + [log]
      ensures TrimStep(cap, log, excess, deleted) && removed == Gone(cap, log)
      ensures Sending(m, Trimmed(removed)) && (deleted == [] ==> removed == 0)
      ensures RemovedAt(cap, old(log), deleted)
    {
      hide TrimStep, RemovedAt, Selected, Apply, Gone, Kept, Exec, LegalRun;
      ghost var asked := log;
      deleted, removed := [], 0;
      TrimIs(cap, asked, excess);
      if excess > 0 {
        rows, deleted, removed := TrimRows(rows, excess);
      }
      Record(Trim);
      TrimStepIs(cap, asked, excess, deleted);
    }

    method DeductRemoved(m: Message, removed: nat, any: bool)
      requires Valid() && Sending(m, Trimmed(removed)) && (!any ==> removed == 0)
      modifies this
      ensures Valid() && log == Then(old(log), Deduct) && own == old(own) + [log]
      ensures DeductStep(cap, log, removed)
      ensures Sending(m, Deducted)
    {
      CounterHolds(cap, log);
      if any {
        total := Floor(total - removed);
      }
      Record(Deduct);
    }

    method InsertAndCount(m: Message)
      requires Valid() && Sending(m, Deducted)
      modifies this
      ensures Valid() && log == Then(old(log), Commit) && own == old(own) + [log]
      ensures txn == None && rows == [m] + old(rows) && CommitStep(cap, log, m)
    {
      CounterHolds(cap, log);
      rows := [m] + rows;
      if Len(m) > 0 {
        total := Floor(total + Len(m));
      }
      Record(Commit);
    }

    /** send_message_atomic: under the advisory lock, read the counter, trim, deduct, insert and
        count. Recalls, expiries and their decrements may run between the statements, and still the
        kept text fits the cap once the message is in. */
    method SendMessageAtomic(m: Message) returns (deleted: seq<Message>)
      requires Valid() && txn == None
      requires !m.recalled && Len(m) <= cap
      modifies this
      ensures Valid() && log.Then? && log.cmd == Commit && Within(old(log), log)
      ensures txn == None && rows != [] && rows[0] == m
      ensures total == Kept(rows) + owed
      ensures NeverJams(cap, log) || OwnTimes(cap, log) ==> Kept(rows) <= cap
      ensures exists moment: Run :: Within(old(log), moment) && Within(moment, log) && RemovedAt(cap, moment, deleted)
      ensures old(own) <= own && SendSteps(cap, old(log), log, m, deleted, own[|old(own)|..])
    {
      hide TrimStep, DeductStep, CommitStep, Asked, Gone, RemovedAt, Kept, Exec, LegalRun, NeverJams, OwnTimes;
      ghost var start := log;
      var removed;
      var excess := LockAndMeasure(m);
      ghost var measured := log;
      Interference();
      WithinTransitive(start, measured, log);
      ghost var asked := log;
      deleted, removed := TrimExcess(m, excess);
      ghost var trimmed := log;
      Interference();
      WithinTransitive(start, trimmed, log);
      WithinTransitive(asked, trimmed, log);
      DeductRemoved(m, removed, deleted != []);
      ghost var deducted := log;
      Interference();
      WithinTransitive(start, deducted, log);
      WithinTransitive(asked, deducted, log);
      InsertAndCount(m);
      assert Within(asked, log) && RemovedAt(cap, asked, deleted);
      assert own[|old(own)|..] == [measured, trimmed, deducted, log];
      CapAndCounterHold(cap, log);
    }

    /** delete_oldest_messages_by_chars: trims and deducts in one transaction; the kept text drops by
        at least the requested amount, or to nothing, if and only if ties do not prevent it. */
    method DeleteOldestMessagesByChars(excess: nat) returns (deleted: seq<Message>)
      requires Valid()
      modifies this
      ensures Valid() && log == Then(old(log), Prune(excess))
      ensures Kept(rows) <= Max(0, old(Kept(rows)) - excess) <==> TieSafe(old(rows), excess, excess)
      ensures total - Kept(rows) == old(total) - old(Kept(rows))
      ensures forall m :: m in deleted <==> m in old(rows) && Selected(old(rows), excess, m)
    {
      PruneShrinksIff(rows, excess);
      deleted := TrimAndDeduct(excess);
    }

    method TrimAndDeduct(excess: nat) returns (deleted: seq<Message>)
      requires Valid()
      modifies this
      ensures Valid() && log == Then(old(log), Prune(excess))
      ensures rows == Spared(old(rows), old(rows), excess) && total == old(total) - Freed(old(rows), old(rows), excess)
      ensures forall m :: m in deleted <==> m in old(rows) && Selected(old(rows), excess, m)
    {
      var removed;
      CounterHolds(cap, log);
      PruneIs(cap, State(), excess);
      hide Selected, Apply, Legal, Spared, Freed, Kept, Exec, LegalRun;
      rows, deleted, removed := TrimRows(rows, excess);
      if deleted != [] {
        total := Floor(total - removed);
      }
      Record(Prune(excess));
    }

    /** recall_message: the text of that message is gone at once, the counter follows later. */
    method RecallMessage(id: MessageId) returns (found: bool)
      requires Valid()
      modifies this
      ensures Valid() && log == Then(old(log), Recall(id))
      ensures total == old(total) && owed == old(owed) + old(Kept(rows)) - Kept(rows)
      ensures found <==> exists m <- old(rows) :: m.id == id
      ensures |rows| == |old(rows)| && forall i :: 0 <= i < |rows| ==>
        rows[i] == if old(rows)[i].id == id then Message(id, old(rows)[i].createdAt, None, None, true) else old(rows)[i]
    {
      hide Recalled, Kept, Exec, LegalRun;
      rows, found := RecallRows(rows, id);
      Record(Recall(id));
    }

    /** delete_messages_by_ids, with the number of rows deleted. */
    method DeleteMessagesByIds(ids: set<MessageId>) returns (count: nat)
      requires Valid()
      modifies this
      ensures Valid() && log == Then(old(log), Expire(ids))
      ensures total == old(total) && owed == old(owed) + old(Kept(rows)) - Kept(rows)
      ensures count == |old(rows)| - |rows| && forall m :: m in rows <==> m in old(rows) && m.id !in ids
    {
      var left: seq<Message> := [];
      count := 0;
      for n := |rows| downto 0
        invariant left == Without(rows[n..], ids) && count == |rows| - n - |left|
        invariant Valid() && rows == old(rows) && log == old(log) && total == old(total) && owed == old(owed)
        invariant forall m :: m in left <==> m in rows[n..] && m.id !in ids
      {
        assert rows[n..][1..] == rows[n + 1..];
        if rows[n].id in ids { count := count + 1; } else { left := [rows[n]] + left; }
      }
      assert rows[0..] == rows;
      rows := left;
      Record(Expire(ids));
    }

    /** increment_char_count with a negative delta, paying off part of the debt. */
    method IncrementCharCount(delta: int)
      requires Valid() && delta <= 0 && -delta <= owed - Reserved(State())
      modifies this
      ensures Valid() && log == Then(old(log), Settle(-delta))
      ensures total == old(total) + delta && owed == old(owed) + delta && rows == old(rows)
    {
      CounterHolds(cap, log);
      total := Floor(total + delta);
      Record(Settle(-delta));
    }
  }
}
