/**
  The live set of connections and the journal from which clients follow it. A change is made in two atomic
  steps: first the live set, then, under the lock, a numbered journal entry. The journal keeps only its
  newest entries, and the numbers have gaps because plain log events draw from the same counter. A client
  polls with the last number it knows and gets the entries after it, or a whole snapshot.
 */
module ConnJournal {
  import opened Basics

  const MAX_JOURNAL := 500
  const MAX_ACTIVE := 500

  datatype Conn = Conn(id: string, detail: string)

  datatype Change = Add(conn: Conn) | Remove(id: string)
  datatype Entry = Entry(seqNo: nat, change: Change)

  type LiveSet = map<string, Conn>

  function Subject(c: Change): string {
    match c
    case Add(conn) => conn.id
    case Remove(id) => id
  }

  function Outcome(c: Change): Option<Conn> {
    match c
    case Add(conn) => Some(conn)
    case Remove(_) => None
  }

  function At(live: LiveSet, id: string): Option<Conn> {
    if id in live then Some(live[id]) else None
  }

  function Apply(live: LiveSet, c: Change): LiveSet {
    match c
    case Add(conn) => live[conn.id := conn]
    case Remove(id) => live - {id}
  }

  /** What a client does with a list of entries. */
  function Replay(live: LiveSet, entries: seq<Entry>): LiveSet {
    if entries == [] then live else Apply(Replay(live, entries[..|entries| - 1]), entries[|entries| - 1].change)
  }

  // ---------------------------------------------------------------- entries

  function After(entries: seq<Entry>, cursor: nat): seq<Entry> {
    if entries == [] then []
    else After(entries[..|entries| - 1], cursor) +
         if entries[|entries| - 1].seqNo > cursor then [entries[|entries| - 1]] else []
  }

  /** The newest entries, at most `MAX_JOURNAL` of them. */
  function Newest(entries: seq<Entry>): seq<Entry> {
    if |entries| > MAX_JOURNAL then entries[|entries| - MAX_JOURNAL..] else entries
  }

  /** The number of the last entry that has been dropped, 0 when there is none. */
  function Lost(entries: seq<Entry>): nat {
    if |entries| > MAX_JOURNAL then entries[|entries| - MAX_JOURNAL - 1].seqNo else 0
  }

  function Later(a: nat, b: nat): nat {
    if a < b then b else a
  }

  ghost predicate Numbered(entries: seq<Entry>) {
    forall i, j :: 0 <= i < j < |entries| ==> entries[i].seqNo < entries[j].seqNo
  }

  /** The last change of `id`, which decides whether and how it is in the set. */
  function LastChange(entries: seq<Entry>, id: string): Option<Entry> {
    if entries == [] then None
    else if Subject(entries[|entries| - 1].change) == id then Some(entries[|entries| - 1])
    else LastChange(entries[..|entries| - 1], id)
  }

  ghost predicate ChangedAfter(entries: seq<Entry>, id: string, cursor: nat) {
    LastChange(entries, id).Some? && LastChange(entries, id).value.seqNo > cursor
  }

  lemma {:induction false} LastChangeDecides(live: LiveSet, entries: seq<Entry>, id: string)
    ensures At(Replay(live, entries), id) ==
            match LastChange(entries, id)
            case None => At(live, id)
            case Some(e) => Outcome(e.change)
    decreases |entries|
  {
    if entries != [] { LastChangeDecides(live, entries[..|entries| - 1], id); }
  }

  lemma {:induction false} AllBefore(entries: seq<Entry>, cursor: nat)
    requires forall i :: 0 <= i < |entries| ==> entries[i].seqNo <= cursor
    ensures After(entries, cursor) == []
    decreases |entries|
  {
    if entries != [] { AllBefore(entries[..|entries| - 1], cursor); }
  }

  lemma {:induction false} AllAfter(entries: seq<Entry>, cursor: nat)
    requires forall i :: 0 <= i < |entries| ==> entries[i].seqNo > cursor
    ensures After(entries, cursor) == entries
    decreases |entries|
  {
    if entries != [] {
      AllAfter(entries[..|entries| - 1], cursor);
      assert entries == entries[..|entries| - 1] + [entries[|entries| - 1]];
    }
  }

  /** Among the entries after a cursor the last change of `id` is the overall one, if that is recent. */
  lemma {:induction false} LastChangeAfter(entries: seq<Entry>, cursor: nat, id: string)
    requires Numbered(entries)
    ensures LastChange(After(entries, cursor), id) ==
            if ChangedAfter(entries, id, cursor) then LastChange(entries, id) else None
    decreases |entries|
  {
    if entries != [] {
      var front, last := entries[..|entries| - 1], entries[|entries| - 1];
      LastChangeAfter(front, cursor, id);
      var rest := After(front, cursor);
      if last.seqNo > cursor {
        assert (rest + [last])[..|rest|] == rest;
      } else {
        assert rest + [] == rest;
        AllBefore(front, cursor);
      }
    }
  }

  lemma {:induction false} AfterAppend(xs: seq<Entry>, ys: seq<Entry>, cursor: nat)
    ensures After(xs + ys, cursor) == After(xs, cursor) + After(ys, cursor)
    decreases |ys|
  {
    if ys == [] {
      assert xs + ys == xs;
    } else {
      assert (xs + ys)[..|xs + ys| - 1] == xs + ys[..|ys| - 1];
      AfterAppend(xs, ys[..|ys| - 1], cursor);
    }
  }

  lemma AfterIsSuffix(dropped: seq<Entry>, kept: seq<Entry>, cursor: nat)
    requires forall i :: 0 <= i < |dropped| ==> dropped[i].seqNo <= cursor
    ensures After(dropped + kept, cursor) == After(kept, cursor)
  {
    AfterAppend(dropped, kept, cursor);
    AllBefore(dropped, cursor);
    assert [] + After(kept, cursor) == After(kept, cursor);
  }

  lemma AfterKept(dropped: seq<Entry>, kept: seq<Entry>, lost: nat, cursor: nat)
    requires forall i :: 0 <= i < |dropped| ==> dropped[i].seqNo <= lost
    requires forall i :: 0 <= i < |kept| ==> kept[i].seqNo > lost
    ensures After(kept, cursor) == After(dropped + kept, Later(cursor, lost))
  {
    if cursor < lost {
      AfterIsSuffix(dropped, kept, lost);
      AllAfter(kept, lost);
      AllAfter(kept, cursor);
    } else {
      AfterIsSuffix(dropped, kept, cursor);
    }
  }

  /** What the truncated journal still gives: the entries after the cursor or after the last dropped one. */
  lemma AfterNewest(history: seq<Entry>, cursor: nat)
    requires Numbered(history)
    ensures After(Newest(history), cursor) == After(history, Later(cursor, Lost(history)))
  {
    if |history| > MAX_JOURNAL {
      var cut := |history| - MAX_JOURNAL;
      assert history == history[..cut] + history[cut..];
      AfterKept(history[..cut], history[cut..], history[cut - 1].seqNo, cursor);
    }
  }

  /** A cursor that reaches into the journal is past everything dropped. */
  lemma FreshIsNotLost(history: seq<Entry>, version: nat, cursor: nat)
    requires Numbered(history) && !IsStale(Newest(history), version, cursor)
    ensures Lost(history) <= cursor
  {
    if |history| > MAX_JOURNAL {
      assert Newest(history)[0] == history[|history| - MAX_JOURNAL];
    }
  }

  // ---------------------------------------------------------------- the server

  datatype State = State(
    live: LiveSet,
    pending: multiset<Change>,  // made in the live set and not yet in the journal
    history: seq<Entry>,        // every entry ever made; the journal is the newest part of it
    version: nat)

  const START := State(map[], multiset{}, [], 0)

  datatype Event = Begin(change: Change) | Commit(change: Change) | LogEvent

  ghost predicate Next(s: State, e: Event, t: State) {
    match e
    case Begin(c) => t == s.(live := Apply(s.live, c), pending := s.pending + multiset{c})
    case Commit(c) =>
      c in s.pending &&
      t == s.(pending := s.pending - multiset{c},
              history := s.history + [Entry(s.version + 1, c)],
              version := s.version + 1)
    case LogEvent => t == s.(version := s.version + 1)
  }

  ghost predicate InFlight(s: State, id: string) {
    exists c :: c in s.pending && Subject(c) == id
  }

  /** No two unfinished changes concern the same connection. */
  ghost predicate OneOwner(s: State) {
    && (forall c :: c in s.pending ==> s.pending[c] == 1)
    && forall c, d :: c in s.pending && d in s.pending && Subject(c) == Subject(d) ==> c == d
  }

  /** The history is numbered up to the version, and with what is in flight it accounts for the live set. */
  ghost predicate Sound(s: State) {
    && Numbered(s.history)
    && (forall i :: 0 <= i < |s.history| ==> s.history[i].seqNo <= s.version)
    && (forall c :: c in s.pending ==> At(s.live, Subject(c)) == Outcome(c))
    && forall id :: !InFlight(s, id) ==> At(s.live, id) == At(Replay(map[], s.history), id)
  }

  lemma BeginAccounts(s: State, c: Change, t: State, id: string)
    requires Sound(s) && Next(s, Begin(c), t) && !InFlight(t, id)
    ensures At(t.live, id) == At(Replay(map[], t.history), id)
  {
    assert c in t.pending && forall d :: d in s.pending ==> d in t.pending;
    assert !InFlight(s, id) && id != Subject(c);
  }

  lemma BeginKeeps(s: State, c: Change, t: State)
    requires Sound(s) && OneOwner(t) && Next(s, Begin(c), t)
    ensures Sound(t)
  {
    assert c in t.pending;
    forall d | d in t.pending ensures At(t.live, Subject(d)) == Outcome(d) {
      if d != c { assert d in s.pending && Subject(d) != Subject(c); }
    }
    forall id | !InFlight(t, id) ensures At(t.live, id) == At(Replay(map[], t.history), id) {
      BeginAccounts(s, c, t, id);
    }
  }

  lemma CommitAccounts(s: State, c: Change, t: State, id: string)
    requires Sound(s) && Next(s, Commit(c), t) && !InFlight(t, id)
    ensures At(t.live, id) == At(Replay(map[], t.history), id)
  {
    assert t.history[..|s.history|] == s.history;
    if id != Subject(c) {
      assert forall d :: d in s.pending && d != c ==> d in t.pending;
      assert !InFlight(s, id);
    }
  }

  lemma CommitKeeps(s: State, c: Change, t: State)
    requires Sound(s) && Next(s, Commit(c), t)
    ensures Sound(t)
  {
    forall d | d in t.pending ensures At(t.live, Subject(d)) == Outcome(d) { assert d in s.pending; }
    forall id | !InFlight(t, id) ensures At(t.live, id) == At(Replay(map[], t.history), id) {
      CommitAccounts(s, c, t, id);
    }
  }

  lemma NextKeeps(s: State, e: Event, t: State)
    requires Sound(s) && OneOwner(t) && Next(s, e, t)
    ensures Sound(t)
  {
    match e
    case Begin(c) => BeginKeeps(s, c, t);
    case Commit(c) => CommitKeeps(s, c, t);
    case LogEvent =>
      forall id | !InFlight(t, id) ensures At(t.live, id) == At(Replay(map[], t.history), id) {
        assert !InFlight(s, id);
      }
  }

  // ---------------------------------------------------------------- the client

  ghost predicate Settled(s: State, id: string, cursor: nat) {
    !InFlight(s, id) && !ChangedAfter(s.history, id, cursor)
  }

  /** A client's set may differ from the live set only where a change is in flight or was journalled after
      the client's cursor. */
  ghost predicate Follows(s: State, view: LiveSet, cursor: nat) {
    cursor <= s.version && forall id :: Settled(s, id, cursor) ==> At(view, id) == At(s.live, id)
  }

  /** A step leaves alone every connection that is afterwards neither in flight nor newly journalled. */
  lemma StepLeavesAlone(s: State, e: Event, t: State, id: string, cursor: nat)
    requires Next(s, e, t) && cursor <= s.version && Settled(t, id, cursor)
    ensures Settled(s, id, cursor) && At(s.live, id) == At(t.live, id)
  {
    match e
    case Begin(c) =>
      assert c in t.pending;
      assert forall d :: d in s.pending ==> d in t.pending;
    case Commit(c) =>
      assert t.history[..|s.history|] == s.history;
      assert forall d :: d in s.pending && d != c ==> d in t.pending;
    case LogEvent =>
      assert s.pending == t.pending;
  }

  ghost predicate StepAt(states: seq<State>, events: seq<Event>, i: nat)
    requires i < |events| && i + 1 < |states|
  {
    OneOwner(states[i]) && OneOwner(states[i + 1]) && Next(states[i], events[i], states[i + 1])
  }

  /** A run from the start in which every connection has one owner at a time. */
  ghost predicate IsRun(states: seq<State>, events: seq<Event>) {
    && |states| == |events| + 1
    && states[0] == START
    && forall i :: 0 <= i < |events| ==> StepAt(states, events, i)
  }

  lemma StartIsSound()
    ensures Sound(START)
  {
    forall id | !InFlight(START, id) ensures At(START.live, id) == At(Replay(map[], START.history), id) {}
  }

  lemma {:induction false} RunsAreSound(states: seq<State>, events: seq<Event>, n: nat)
    requires IsRun(states, events) && n < |states|
    ensures Sound(states[n])
    decreases n
  {
    if n == 0 {
      StartIsSound();
    } else {
      RunsAreSound(states, events, n - 1);
      assert StepAt(states, events, n - 1);
      NextKeeps(states[n - 1], events[n - 1], states[n]);
    }
  }

  lemma {:induction false} VersionsGrow(states: seq<State>, events: seq<Event>, i: nat, j: nat)
    requires IsRun(states, events) && i <= j < |states|
    ensures states[i].version <= states[j].version
    decreases j - i
  {
    if i < j {
      VersionsGrow(states, events, i, j - 1);
      assert StepAt(states, events, j - 1);
    }
  }

  ghost predicate SettledAs(s: State, id: string, cursor: nat, conn: Option<Conn>) {
    Settled(s, id, cursor) && At(s.live, id) == conn
  }

  lemma SettledBefore(states: seq<State>, events: seq<Event>, i: nat, id: string, cursor: nat, conn: Option<Conn>)
    requires IsRun(states, events) && i < |events|
    requires cursor <= states[i].version && SettledAs(states[i + 1], id, cursor, conn)
    ensures SettledAs(states[i], id, cursor, conn)
  {
    assert StepAt(states, events, i);
    StepLeavesAlone(states[i], events[i], states[i + 1], id, cursor);
  }

  lemma {:induction false} LeftAlone(states: seq<State>, events: seq<Event>, i: nat, j: nat, id: string, cursor: nat,
                                     conn: Option<Conn>)
    requires IsRun(states, events) && i <= j < |states|
    requires cursor <= states[i].version && SettledAs(states[j], id, cursor, conn)
    ensures SettledAs(states[i], id, cursor, conn)
    decreases j - i
  {
    if i < j {
      VersionsGrow(states, events, i, j - 1);
      SettledBefore(states, events, j - 1, id, cursor, conn);
      LeftAlone(states, events, i, j - 1, id, cursor, conn);
    }
  }

  lemma StillFollows(states: seq<State>, events: seq<Event>, i: nat, j: nat, view: LiveSet, cursor: nat)
    requires IsRun(states, events) && i <= j < |states| && Follows(states[i], view, cursor)
    ensures Follows(states[j], view, cursor)
  {
    VersionsGrow(states, events, i, j);
    forall id | Settled(states[j], id, cursor) ensures At(view, id) == At(states[j].live, id) {
      LeftAlone(states, events, i, j, id, cursor, At(states[j].live, id));
    }
  }

  // ---------------------------------------------------------------- a poll

  /** The first thing a poll decides: an empty journal, a cursor older than the journal, or a cursor from
      before a restart call for a snapshot. */
  predicate IsStale(journal: seq<Entry>, version: nat, cursor: nat) {
    journal == [] || cursor < journal[0].seqNo || cursor > version
  }

  /** A scan of the live set sees each connection as it is at some moment of the scan. */
  ghost predicate Scanned(states: seq<State>, from: nat, to: nat, view: LiveSet)
    requires from <= to < |states|
  {
    forall id :: exists i :: from <= i <= to && At(view, id) == At(states[i].live, id)
  }

  lemma SnapshotFollows(states: seq<State>, events: seq<Event>, read: nat, from: nat, to: nat, view: LiveSet)
    requires IsRun(states, events) && read <= from <= to < |states| && Scanned(states, from, to, view)
    ensures Follows(states[to], view, states[read].version)
  {
    var cursor := states[read].version;
    VersionsGrow(states, events, read, to);
    forall id | Settled(states[to], id, cursor) ensures At(view, id) == At(states[to].live, id) {
      var i :| from <= i <= to && At(view, id) == At(states[i].live, id);
      VersionsGrow(states, events, read, i);
      LeftAlone(states, events, i, to, id, cursor, At(states[to].live, id));
    }
  }

  /** Replaying what the journal still has puts a settled connection right exactly when its last change was
      not dropped after the cursor, or the client had it right anyway. */
  lemma ReplayRightExactly(s: State, view: LiveSet, cursor: nat, id: string)
    requires Sound(s) && !InFlight(s, id)
    ensures At(Replay(view, After(Newest(s.history), cursor)), id) == At(s.live, id) <==>
            At(view, id) == At(s.live, id) || ChangedAfter(s.history, id, Later(cursor, Lost(s.history)))
  {
    var from := Later(cursor, Lost(s.history));
    AfterNewest(s.history, cursor);
    LastChangeDecides(view, After(s.history, from), id);
    LastChangeAfter(s.history, from, id);
    LastChangeDecides(map[], s.history, id);
  }

  lemma ReplayCatchesUp(s: State, view: LiveSet, cursor: nat, version: nat)
    requires Sound(s) && Follows(s, view, cursor) && Lost(s.history) <= cursor && version <= s.version
    ensures Follows(s, Replay(view, After(Newest(s.history), cursor)), version)
  {
    var view' := Replay(view, After(Newest(s.history), cursor));
    forall id | Settled(s, id, version) ensures At(view', id) == At(s.live, id) {
      ReplayRightExactly(s, view, cursor, id);
    }
  }

  /** A poll reads the version, later decides, and later still fetches the entries or scans the live set. */
  datatype Poll = Poll(read: nat, check: nat, fetch: nat, view: LiveSet)

  ghost predicate InOrder(states: seq<State>, polls: seq<Poll>) {
    && (forall k :: 0 <= k < |polls| ==> polls[k].read <= polls[k].check <= polls[k].fetch < |states|)
    && forall i, j :: 0 <= i < j < |polls| ==> polls[i].fetch <= polls[j].read
  }

  /** The decision of poll `k`; the first poll has no cursor and always takes a snapshot. */
  ghost predicate TakesSnapshot(states: seq<State>, polls: seq<Poll>, k: nat)
    requires InOrder(states, polls) && k < |polls|
  {
    k == 0 ||
    IsStale(Newest(states[polls[k].check].history), states[polls[k].check].version, states[polls[k - 1].read].version)
  }

  ghost predicate IsPoll(states: seq<State>, polls: seq<Poll>, k: nat)
    requires InOrder(states, polls) && k < |polls|
  {
    if TakesSnapshot(states, polls, k) then Scanned(states, polls[k].check, polls[k].fetch, polls[k].view)
    else polls[k].view == Replay(polls[k - 1].view,
                                 After(Newest(states[polls[k].fetch].history), states[polls[k - 1].read].version))
  }

  ghost predicate IsClient(states: seq<State>, polls: seq<Poll>) {
    InOrder(states, polls) && forall k :: 0 <= k < |polls| ==> IsPoll(states, polls, k)
  }

  /** The cursor a later poll sends: the version read by the poll before it. */
  ghost function Cursor(states: seq<State>, polls: seq<Poll>, k: nat): nat
    requires InOrder(states, polls) && 0 < k < |polls|
  {
    states[polls[k - 1].read].version
  }

  /** Poll `k` brings the last change of `id`, or the whole set. */
  ghost predicate Refreshes(states: seq<State>, polls: seq<Poll>, k: nat, id: string)
    requires InOrder(states, polls) && k < |polls|
  {
    TakesSnapshot(states, polls, k) ||
    ChangedAfter(states[polls[k].fetch].history, id,
                 Later(Cursor(states, polls, k), Lost(states[polls[k].fetch].history)))
  }

  /** The last change of `id` is newer than the cursor, and was dropped between the decision and the fetch. */
  ghost predicate Misses(states: seq<State>, polls: seq<Poll>, k: nat, id: string)
    requires InOrder(states, polls) && k < |polls|
  {
    && !TakesSnapshot(states, polls, k)
    && ChangedAfter(states[polls[k].fetch].history, id, Cursor(states, polls, k))
    && !ChangedAfter(states[polls[k].fetch].history, id, Lost(states[polls[k].fetch].history))
  }

  /** The last poll up to `k` with news of `id` brought it; or it missed it, and what the client had before
      happens to be `conn`. */
  ghost predicate Informed(states: seq<State>, polls: seq<Poll>, k: nat, id: string, conn: Option<Conn>)
    requires InOrder(states, polls) && k < |polls|
  {
    if Refreshes(states, polls, k, id) then true
    else if Misses(states, polls, k, id) then At(polls[k - 1].view, id) == conn
    else Informed(states, polls, k - 1, id, conn)
  }

  /** A replaying poll is right about a settled connection if and only if it refreshes it, or the client had
      it right before. */
  lemma ReplayingPollExactly(states: seq<State>, events: seq<Event>, polls: seq<Poll>, k: nat, id: string)
    requires IsRun(states, events) && IsClient(states, polls) && k < |polls| && !TakesSnapshot(states, polls, k)
    requires !InFlight(states[polls[k].fetch], id)
    ensures At(polls[k].view, id) == At(states[polls[k].fetch].live, id) <==>
            Refreshes(states, polls, k, id) || At(polls[k - 1].view, id) == At(states[polls[k].fetch].live, id)
  {
    assert IsPoll(states, polls, k);
    RunsAreSound(states, events, polls[k].fetch);
    ReplayRightExactly(states[polls[k].fetch], polls[k - 1].view, Cursor(states, polls, k), id);
  }

  /** Nothing happened to `id` since the cursor: it is live as it was at the end of the poll before. */
  lemma NoNewsNoChange(states: seq<State>, events: seq<Event>, polls: seq<Poll>, k: nat, id: string)
    requires IsRun(states, events) && InOrder(states, polls) && 0 < k < |polls|
    requires !TakesSnapshot(states, polls, k) && !InFlight(states[polls[k].fetch], id)
    requires !Refreshes(states, polls, k, id) && !Misses(states, polls, k, id)
    ensures Settled(states[polls[k - 1].fetch], id, states[polls[k - 1].read].version)
    ensures At(states[polls[k - 1].fetch].live, id) == At(states[polls[k].fetch].live, id)
  {
    var i, j, cursor := polls[k - 1].fetch, polls[k].fetch, Cursor(states, polls, k);
    VersionsGrow(states, events, polls[k - 1].read, i);
    assert !ChangedAfter(states[j].history, id, cursor);
    LeftAlone(states, events, i, j, id, cursor, At(states[j].live, id));
  }

  /** A snapshot is right about a settled connection. */
  lemma SnapshotIsRight(states: seq<State>, events: seq<Event>, polls: seq<Poll>, k: nat, id: string)
    requires IsRun(states, events) && IsClient(states, polls) && k < |polls| && TakesSnapshot(states, polls, k)
    requires Settled(states[polls[k].fetch], id, states[polls[k].read].version)
    ensures At(polls[k].view, id) == At(states[polls[k].fetch].live, id)
  {
    assert IsPoll(states, polls, k);
    SnapshotFollows(states, events, polls[k].read, polls[k].check, polls[k].fetch, polls[k].view);
  }

  /** Over any sequence of polls, each reading version, decision and entries at different moments: about a
      connection that is settled since the version was read, the client is right if and only if its last
      news was not dropped, or what it had before is right. */
  lemma {:induction false} ClientRightExactly(states: seq<State>, events: seq<Event>, polls: seq<Poll>, k: nat,
                                              id: string)
    requires IsRun(states, events) && IsClient(states, polls) && k < |polls|
    requires Settled(states[polls[k].fetch], id, states[polls[k].read].version)
    ensures At(polls[k].view, id) == At(states[polls[k].fetch].live, id) <==>
            Informed(states, polls, k, id, At(states[polls[k].fetch].live, id))
    decreases k
  {
    if TakesSnapshot(states, polls, k) {
      SnapshotIsRight(states, events, polls, k, id);
    } else {
      ReplayingPollExactly(states, events, polls, k, id);
      if !Refreshes(states, polls, k, id) && !Misses(states, polls, k, id) {
        NoNewsNoChange(states, events, polls, k, id);
        ClientRightExactly(states, events, polls, k - 1, id);
      }
    }
  }

  /** After a poll during which nothing is journalled and at whose end nothing is in flight, the client's
      set is the live set if and only if it is informed about every connection. */
  lemma ClientIsRightExactly(states: seq<State>, events: seq<Event>, polls: seq<Poll>, k: nat)
    requires IsRun(states, events) && IsClient(states, polls) && k < |polls|
    requires states[polls[k].fetch].pending == multiset{}
    requires states[polls[k].fetch].version == states[polls[k].read].version
    ensures polls[k].view == states[polls[k].fetch].live <==>
            forall id :: Informed(states, polls, k, id, At(states[polls[k].fetch].live, id))
  {
    var s := states[polls[k].fetch];
    RunsAreSound(states, events, polls[k].fetch);
    forall id ensures At(polls[k].view, id) == At(s.live, id) <==> Informed(states, polls, k, id, At(s.live, id)) {
      NothingNewer(s.history, id, s.version);
      assert !InFlight(s, id);
      ClientRightExactly(states, events, polls, k, id);
    }
    if forall id :: Informed(states, polls, k, id, At(s.live, id)) { SameEverywhere(polls[k].view, s.live); }
  }

  /** Between the decision of a poll and its fetch nothing after the cursor is dropped. */
  ghost predicate KeepsUp(states: seq<State>, polls: seq<Poll>)
    requires InOrder(states, polls)
  {
    forall k :: 0 < k < |polls| ==> KeepsUpAt(states, polls, k)
  }

  ghost predicate KeepsUpAt(states: seq<State>, polls: seq<Poll>, k: nat)
    requires InOrder(states, polls) && 0 < k < |polls|
  {
    TakesSnapshot(states, polls, k) || Lost(states[polls[k].fetch].history) <= Cursor(states, polls, k)
  }

  lemma ChangedAfterLess(entries: seq<Entry>, id: string, less: nat, cursor: nat)
    requires less <= cursor && ChangedAfter(entries, id, cursor)
    ensures ChangedAfter(entries, id, less)
  {
    var last := LastChange(entries, id);
    assert last.Some? && last.value.seqNo > less;
  }

  lemma NothingDroppedNothingMissed(states: seq<State>, polls: seq<Poll>, k: nat, id: string)
    requires InOrder(states, polls) && 0 < k < |polls|
    requires Lost(states[polls[k].fetch].history) <= Cursor(states, polls, k)
    ensures !Misses(states, polls, k, id)
  {
    var h := states[polls[k].fetch].history;
    if ChangedAfter(h, id, Cursor(states, polls, k)) { ChangedAfterLess(h, id, Lost(h), Cursor(states, polls, k)); }
  }

  /** A client that has missed no news is informed. */
  lemma {:induction false} NothingMissedInforms(states: seq<State>, polls: seq<Poll>, k: nat, id: string,
                                                conn: Option<Conn>)
    requires InOrder(states, polls) && k < |polls|
    requires forall j :: 0 < j <= k ==> !Misses(states, polls, j, id)
    ensures Informed(states, polls, k, id, conn)
    decreases k
  {
    if !Refreshes(states, polls, k, id) { NothingMissedInforms(states, polls, k - 1, id, conn); }
  }

  /** A client that keeps up is informed about everything. */
  lemma KeepingUpInforms(states: seq<State>, polls: seq<Poll>, k: nat, id: string, conn: Option<Conn>)
    requires InOrder(states, polls) && KeepsUp(states, polls) && k < |polls|
    ensures Informed(states, polls, k, id, conn)
  {
    forall j | 0 < j <= k ensures !Misses(states, polls, j, id) {
      assert KeepsUpAt(states, polls, j);
      if !TakesSnapshot(states, polls, j) { NothingDroppedNothingMissed(states, polls, j, id); }
    }
    NothingMissedInforms(states, polls, k, id, conn);
  }

  /** In one poll and without reference to earlier ones: a client that has the live set of any moment from
      its cursor on, and gets entries when nothing is in flight, ends with the live set. */
  lemma AnyMomentEndsRight(states: seq<State>, events: seq<Event>, i: nat, j: nat, k: nat)
    requires IsRun(states, events) && i <= j <= k < |states| && states[k].pending == multiset{}
    requires !IsStale(Newest(states[k].history), states[k].version, states[i].version)
    ensures Replay(states[j].live, After(Newest(states[k].history), states[i].version)) == states[k].live
  {
    var s, cursor, view := states[k], states[i].version, states[j].live;
    forall id ensures exists m :: j <= m <= j && At(view, id) == At(states[m].live, id) {
      assert At(view, id) == At(states[j].live, id);
    }
    SnapshotFollows(states, events, i, j, j, view);
    StillFollows(states, events, j, k, view, cursor);
    RunsAreSound(states, events, k);
    FreshIsNotLost(s.history, s.version, cursor);
    ReplayCatchesUp(s, view, cursor, s.version);
    AtRestIsEqual(s, Replay(view, After(Newest(s.history), cursor)));
  }

  lemma AtRestIsEqual(s: State, view: LiveSet)
    requires Sound(s) && Follows(s, view, s.version) && s.pending == multiset{}
    ensures view == s.live
  {
    forall id ensures At(view, id) == At(s.live, id) {
      NothingNewer(s.history, id, s.version);
      assert !InFlight(s, id);
      assert Settled(s, id, s.version);
    }
    SameEverywhere(view, s.live);
  }

  lemma {:induction false} NothingNewer(entries: seq<Entry>, id: string, version: nat)
    requires forall i :: 0 <= i < |entries| ==> entries[i].seqNo <= version
    ensures !ChangedAfter(entries, id, version)
    decreases |entries|
  {
    if entries != [] { NothingNewer(entries[..|entries| - 1], id, version); }
  }

  lemma SameEverywhere(x: LiveSet, y: LiveSet)
    requires forall id :: At(x, id) == At(y, id)
    ensures x == y
  {
    forall id | id in x ensures id in y && y[id] == x[id] { assert At(x, id) == At(y, id); }
    forall id | id in y ensures id in x { assert At(x, id) == At(y, id); }
  }

  /** A poll whose decision and fetch see the same history always keeps up. */
  lemma QuickPollKeepsUp(states: seq<State>, events: seq<Event>, polls: seq<Poll>, k: nat)
    requires IsRun(states, events) && InOrder(states, polls) && 0 < k < |polls|
    requires states[polls[k].fetch].history == states[polls[k].check].history
    ensures KeepsUpAt(states, polls, k)
  {
    var s := states[polls[k].check];
    RunsAreSound(states, events, polls[k].check);
    if !TakesSnapshot(states, polls, k) { FreshIsNotLost(s.history, s.version, Cursor(states, polls, k)); }
  }

  // ---------------------------------------------------------------- after a restart

  /** What one poll gives a client that holds `held` and sends `cursor`, wherever it has them from: the
      answer is decided at `check` and fetched by `fetch`. */
  ghost predicate IsAnswered(states: seq<State>, p: Poll, held: LiveSet, cursor: nat)
    requires p.read <= p.check <= p.fetch < |states|
  {
    if IsStale(Newest(states[p.check].history), states[p.check].version, cursor) then
      Scanned(states, p.check, p.fetch, p.view)
    else p.view == Replay(held, After(Newest(states[p.fetch].history), cursor))
  }

  /** A client from before a restart: whatever it holds, and whatever cursor above the new version it sends,
      it gets a scan of the new live set, follows from the version read, and has the live set when nothing is
      journalled during the poll and nothing is left in flight. */
  lemma RestartIsNoticed(states: seq<State>, events: seq<Event>, p: Poll, held: LiveSet, cursor: nat)
    requires IsRun(states, events) && p.read <= p.check <= p.fetch < |states|
    requires IsAnswered(states, p, held, cursor) && cursor > states[p.check].version
    ensures Scanned(states, p.check, p.fetch, p.view)
    ensures Follows(states[p.fetch], p.view, states[p.read].version)
    ensures states[p.fetch].pending == multiset{} && states[p.fetch].version == states[p.read].version ==>
              p.view == states[p.fetch].live
  {
    SnapshotFollows(states, events, p.read, p.check, p.fetch, p.view);
    RunsAreSound(states, events, p.fetch);
    if states[p.fetch].pending == multiset{} && states[p.fetch].version == states[p.read].version {
      AtRestIsEqual(states[p.fetch], p.view);
    }
  }

  /** From there on it is a client like any other: that poll counts as its first. */
  lemma RestartedClient(states: seq<State>, events: seq<Event>, polls: seq<Poll>, held: LiveSet, cursor: nat)
    requires IsRun(states, events) && InOrder(states, polls) && polls != []
    requires IsAnswered(states, polls[0], held, cursor) && cursor > states[polls[0].check].version
    requires forall k :: 0 < k < |polls| ==> IsPoll(states, polls, k)
    ensures IsClient(states, polls)
  {
    RestartIsNoticed(states, events, polls[0], held, cursor);
    forall k | 0 <= k < |polls| ensures IsPoll(states, polls, k) {}
  }

  // ---------------------------------------------------------------- without one owner

  /** Any interleaving of any changes. */
  ghost predicate IsAnyRun(states: seq<State>, events: seq<Event>) {
    && |states| == |events| + 1
    && states[0] == START
    && forall i :: 0 <= i < |events| ==> AnyStepAt(states, events, i)
  }

  ghost predicate AnyStepAt(states: seq<State>, events: seq<Event>, i: nat)
    requires i < |events| && i + 1 < |states|
  {
    Next(states[i], events[i], states[i + 1])
  }

  /** The last change of `id` that was made in the live set. */
  function LastBegin(events: seq<Event>, id: string): Option<Change> {
    if events == [] then None
    else
      var e := events[|events| - 1];
      if e.Begin? && Subject(e.change) == id then Some(e.change) else LastBegin(events[..|events| - 1], id)
  }

  /** The last change of `id` that was journalled. */
  function LastCommit(events: seq<Event>, id: string): Option<Change> {
    if events == [] then None
    else
      var e := events[|events| - 1];
      if e.Commit? && Subject(e.change) == id then Some(e.change) else LastCommit(events[..|events| - 1], id)
  }

  function Result(c: Option<Change>): Option<Conn> {
    if c.None? then None else Outcome(c.value)
  }

  lemma {:induction false} LiveIsLastBegin(states: seq<State>, events: seq<Event>, n: nat, id: string)
    requires IsAnyRun(states, events) && n < |states|
    ensures At(states[n].live, id) == Result(LastBegin(events[..n], id))
    decreases n
  {
    if n > 0 {
      LiveIsLastBegin(states, events, n - 1, id);
      assert AnyStepAt(states, events, n - 1);
      assert events[..n][..n - 1] == events[..n - 1];
    }
  }

  lemma {:induction false} ReplayIsLastCommit(states: seq<State>, events: seq<Event>, n: nat, id: string)
    requires IsAnyRun(states, events) && n < |states|
    ensures At(Replay(START.live, states[n].history), id) == Result(LastCommit(events[..n], id))
    decreases n
  {
    if n > 0 {
      ReplayIsLastCommit(states, events, n - 1, id);
      assert AnyStepAt(states, events, n - 1);
      assert events[..n][..n - 1] == events[..n - 1];
      var s, t := states[n - 1], states[n];
      if events[n - 1].Commit? { assert t.history[..|s.history|] == s.history; }
    }
  }

  /** In every state of every interleaving, replaying the whole history gives the live state of a connection
      if and only if its last change made and its last change journalled have the same result. */
  lemma ReplayAgreesExactly(states: seq<State>, events: seq<Event>, n: nat, id: string)
    requires IsAnyRun(states, events) && n < |states|
    ensures At(Replay(START.live, states[n].history), id) == At(states[n].live, id) <==>
            Result(LastBegin(events[..n], id)) == Result(LastCommit(events[..n], id))
  {
    LiveIsLastBegin(states, events, n, id);
    ReplayIsLastCommit(states, events, n, id);
  }

  /** `begun` and `committed` are the last changes of `id` made and journalled, and they keep step. */
  ghost predicate InStep(s: State, id: string, begun: Option<Change>, committed: Option<Change>) {
    && (forall c :: c in s.pending && Subject(c) == id ==> begun == Some(c))
    && (!InFlight(s, id) ==> begun == committed)
  }

  lemma BeginInStep(s: State, c: Change, t: State, id: string, begun: Option<Change>, committed: Option<Change>)
    requires OneOwner(t) && Next(s, Begin(c), t) && InStep(s, id, begun, committed)
    ensures InStep(t, id, if Subject(c) == id then Some(c) else begun, committed)
  {
    assert c in t.pending && forall d :: d in s.pending ==> d in t.pending;
    assert forall d :: d in t.pending && d != c ==> d in s.pending;
  }

  lemma CommitInStep(s: State, c: Change, t: State, id: string, begun: Option<Change>, committed: Option<Change>)
    requires OneOwner(s) && Next(s, Commit(c), t) && InStep(s, id, begun, committed)
    ensures InStep(t, id, begun, if Subject(c) == id then Some(c) else committed)
  {
    assert forall d :: d in s.pending && d != c ==> d in t.pending;
    assert forall d :: d in t.pending ==> d in s.pending && d != c;
  }

  /** One owner per connection is enough for that: with nothing in flight the last change made is the last
      one journalled. */
  lemma {:induction false} OneOwnerJournalsInOrder(states: seq<State>, events: seq<Event>, n: nat, id: string)
    requires IsRun(states, events) && n < |states|
    ensures InStep(states[n], id, LastBegin(events[..n], id), LastCommit(events[..n], id))
    decreases n
  {
    if n > 0 {
      var s, e, t := states[n - 1], events[n - 1], states[n];
      OneOwnerJournalsInOrder(states, events, n - 1, id);
      assert StepAt(states, events, n - 1);
      assert events[..n][..n - 1] == events[..n - 1];
      var begun, committed := LastBegin(events[..n - 1], id), LastCommit(events[..n - 1], id);
      match e
      case Begin(c) => BeginInStep(s, c, t, id, begun, committed);
      case Commit(c) => CommitInStep(s, c, t, id, begun, committed);
      case LogEvent => assert InFlight(t, id) <==> InFlight(s, id);
    }
  }

  /** Without it, two unfinished changes of the same connection can be journalled in the wrong order, and
      then every client that replays them ends wrong with nothing left in flight. */
  lemma OverlappingChangesDiverge(c: Conn) returns (states: seq<State>, events: seq<Event>)
    ensures IsAnyRun(states, events)
    ensures var last := states[|events|];
            last.pending == multiset{} && c.id !in last.live && c.id in Replay(START.live, last.history)
  {
    var add, remove := Add(c), Remove(c.id);
    var s1 := State(map[c.id := c], multiset{add}, [], 0);
    var s2 := State(map[], multiset{add, remove}, [], 0);
    var s3 := State(map[], multiset{add}, [Entry(1, remove)], 1);
    var s4 := State(map[], multiset{}, [Entry(1, remove), Entry(2, add)], 2);
    states, events := [START, s1, s2, s3, s4], [Begin(add), Begin(remove), Commit(remove), Commit(add)];
    assert s1.live - {c.id} == map[];
    assert AnyStepAt(states, events, 0) && AnyStepAt(states, events, 1);
    assert AnyStepAt(states, events, 2) && AnyStepAt(states, events, 3);
    assert s4.history[..1] == s3.history && s3.history[..0] == [];
  }
}
