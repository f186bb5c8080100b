/**
  A client that loses a change: it decides that its cursor is fresh, and before it reads the entries so many
  more are journalled that the one it needs is dropped. Connection `c` comes and goes, and then connection
  `d` is added again and again.
 */
module JournalOverrun {
  import opened Basics
  import opened ConnJournal

  function ChangeAt(c: Conn, d: Conn, i: nat): Change {
    if i == 0 then Add(c) else if i == 1 then Remove(c.id) else Add(d)
  }

  /** Every change is begun and committed before the next one. */
  function EventAt(c: Conn, d: Conn, i: nat): Event {
    if i % 2 == 0 then Begin(ChangeAt(c, d, i / 2)) else Commit(ChangeAt(c, d, i / 2))
  }

  function History(c: Conn, d: Conn, n: nat): (h: seq<Entry>)
    ensures |h| == n
    ensures forall i :: 0 <= i < n ==> h[i] == Entry(i + 1, ChangeAt(c, d, i))
  {
    seq(n, i requires 0 <= i => Entry(i + 1, ChangeAt(c, d, i)))
  }

  /** The live set after `n` changes. */
  function LiveAfter(c: Conn, d: Conn, n: nat): LiveSet {
    if n == 0 then map[] else if n == 1 then map[c.id := c] else if n == 2 then map[] else map[d.id := d]
  }

  function StateAt(c: Conn, d: Conn, i: nat): State {
    if i % 2 == 0 then State(LiveAfter(c, d, i / 2), multiset{}, History(c, d, i / 2), i / 2)
    else State(LiveAfter(c, d, i / 2 + 1), multiset{ChangeAt(c, d, i / 2)}, History(c, d, i / 2), i / 2)
  }

  lemma LiveStep(c: Conn, d: Conn, n: nat)
    ensures LiveAfter(c, d, n + 1) == Apply(LiveAfter(c, d, n), ChangeAt(c, d, n))
  {
  }

  lemma StepHolds(c: Conn, d: Conn, i: nat)
    ensures OneOwner(StateAt(c, d, i)) && Next(StateAt(c, d, i), EventAt(c, d, i), StateAt(c, d, i + 1))
  {
    var n := i / 2;
    if i % 2 == 0 {
      assert (i + 1) / 2 == n && (i + 1) % 2 == 1;
      LiveStep(c, d, n);
    } else {
      assert (i + 1) / 2 == n + 1 && (i + 1) % 2 == 0;
      assert History(c, d, n + 1) == History(c, d, n) + [Entry(n + 1, ChangeAt(c, d, n))];
    }
  }

  function States(c: Conn, d: Conn, n: nat): seq<State> {
    seq(n + 1, i requires 0 <= i => StateAt(c, d, i))
  }

  function Events(c: Conn, d: Conn, n: nat): seq<Event> {
    seq(n, i requires 0 <= i => EventAt(c, d, i))
  }

  lemma StepAtHolds(states: seq<State>, events: seq<Event>, i: nat, c: Conn, d: Conn)
    requires i < |events| && i + 1 < |states|
    requires states[i] == StateAt(c, d, i) && states[i + 1] == StateAt(c, d, i + 1) && events[i] == EventAt(c, d, i)
    ensures StepAt(states, events, i)
  {
    StepHolds(c, d, i);
    StepHolds(c, d, i + 1);
  }

  lemma RunHolds(c: Conn, d: Conn, n: nat)
    ensures IsRun(States(c, d, n), Events(c, d, n))
  {
    var states, events := States(c, d, n), Events(c, d, n);
    assert states[0] == StateAt(c, d, 0) == START;
    forall i | 0 <= i < n ensures StepAt(states, events, i) {
      StepAtHolds(states, events, i, c, d);
    }
  }

  /** The last change of `c` is its removal, whatever follows. */
  lemma {:induction false} LastOfC(c: Conn, d: Conn, n: nat)
    requires n >= 2 && c.id != d.id
    ensures LastChange(History(c, d, n), c.id) == Some(Entry(2, Remove(c.id)))
    decreases n
  {
    assert History(c, d, n)[..n - 1] == History(c, d, n - 1);
    if n > 2 { LastOfC(c, d, n - 1); }
  }

  const CHANGES := MAX_JOURNAL + 2

  /** The client has the set with `c` from version 1, and finds its cursor fresh while the only entry is
      that of `c`; it fetches after `n` changes. */
  function Polls(c: Conn, d: Conn, n: nat): seq<Poll> {
    var seen := map[c.id := c];
    [Poll(2, 2, 2, seen), Poll(2, 2, 2 * n, Replay(seen, After(Newest(History(c, d, n)), 1)))]
  }

  lemma FreshAtTwo(c: Conn, d: Conn)
    ensures var s := StateAt(c, d, 2);
            s.live == map[c.id := c] && s.version == 1 && !IsStale(Newest(s.history), s.version, 1)
  {
    assert History(c, d, 1)[0] == Entry(1, Add(c));
  }

  lemma FirstPollHolds(c: Conn, d: Conn, states: seq<State>, polls: seq<Poll>)
    requires polls != [] && InOrder(states, polls) && polls[0] == Poll(2, 2, 2, map[c.id := c])
    requires states[2] == StateAt(c, d, 2)
    ensures IsPoll(states, polls, 0)
  {
    FreshAtTwo(c, d);
    var seen := polls[0].view;
    forall id ensures exists i :: 2 <= i <= 2 && At(seen, id) == At(states[i].live, id) {
      assert At(seen, id) == At(states[2].live, id);
    }
    assert Scanned(states, 2, 2, seen);
  }

  lemma SecondPollHolds(c: Conn, d: Conn, states: seq<State>, polls: seq<Poll>)
    requires |polls| == 2 && InOrder(states, polls)
    requires polls[0].read == 2 && polls[1].check == 2 && states[2] == StateAt(c, d, 2)
    requires polls[1].view == Replay(polls[0].view, After(Newest(states[polls[1].fetch].history), 1))
    ensures IsPoll(states, polls, 1)
  {
    FreshAtTwo(c, d);
  }

  lemma TwoPolls(c: Conn, d: Conn, states: seq<State>, n: nat, view: LiveSet)
    requires |states| == n + 1 && n >= 2 && states[2] == StateAt(c, d, 2)
    requires view == Replay(map[c.id := c], After(Newest(states[n].history), 1))
    ensures IsClient(states, [Poll(2, 2, 2, map[c.id := c]), Poll(2, 2, n, view)])
  {
    var polls := [Poll(2, 2, 2, map[c.id := c]), Poll(2, 2, n, view)];
    FirstPollHolds(c, d, states, polls);
    SecondPollHolds(c, d, states, polls);
    forall k | 0 <= k < |polls| ensures IsPoll(states, polls, k) { assert k == 0 || k == 1; }
  }

  lemma ClientHolds(c: Conn, d: Conn, n: nat)
    requires n >= 1
    ensures IsClient(States(c, d, 2 * n), Polls(c, d, n))
  {
    var states := States(c, d, 2 * n);
    assert states[2] == StateAt(c, d, 2) && states[2 * n] == StateAt(c, d, 2 * n);
    assert (2 * n) % 2 == 0 && 2 * n / 2 == n;
    TwoPolls(c, d, states, 2 * n, Polls(c, d, n)[1].view);
  }

  lemma StillShown(c: Conn, d: Conn, n: nat)
    requires n == CHANGES && c.id != d.id
    ensures c.id in Replay(map[c.id := c], After(Newest(History(c, d, n)), 1))
  {
    var h, seen := History(c, d, n), map[c.id := c];
    assert Lost(h) == 2;
    AfterNewest(h, 1);
    LastOfC(c, d, n);
    LastChangeAfter(h, 2, c.id);
    LastChangeDecides(seen, After(h, 2), c.id);
    assert At(seen, c.id) == Some(c);
  }

  /** At the end nothing is in flight, and the client still shows `c`, which is gone. */
  lemma OverrunLosesAChange(c: Conn, d: Conn)
    requires c.id != d.id
    ensures IsRun(States(c, d, 2 * CHANGES), Events(c, d, 2 * CHANGES))
    ensures IsClient(States(c, d, 2 * CHANGES), Polls(c, d, CHANGES))
    ensures var last := States(c, d, 2 * CHANGES)[2 * CHANGES];
            last.pending == multiset{} && c.id !in last.live && c.id in Polls(c, d, CHANGES)[1].view
  {
    RunHolds(c, d, 2 * CHANGES);
    ClientHolds(c, d, CHANGES);
    StillShown(c, d, CHANGES);
    assert States(c, d, 2 * CHANGES)[2 * CHANGES] == StateAt(c, d, 2 * CHANGES);
  }
}
