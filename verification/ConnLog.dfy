/** The connection log as an object: each atomic step of it is a step of the state machine in `ConnJournal`. */
module ConnLogging {
  import opened ConnJournal

  lemma NewestOfLonger(history: seq<Entry>, e: Entry)
    ensures Newest(history + [e]) == Newest(Newest(history) + [e])
  {
    if |history| > MAX_JOURNAL {
      var cut := |history| - MAX_JOURNAL;
      assert (history + [e])[cut + 1..] == (history[cut..] + [e])[1..];
    }
  }

  method Extend(journal: seq<Entry>, entry: Entry, ghost history: seq<Entry>)
    returns (extended: seq<Entry>, ghost longer: seq<Entry>)
    requires journal == Newest(history)
    ensures extended == Newest(history + [entry])
    ensures longer == history + [entry]
  {
    longer := history + [entry];
    extended := journal + [entry];
    if |extended| > MAX_JOURNAL {
      extended := extended[|extended| - MAX_JOURNAL..];
    }
    NewestOfLonger(history, entry);
  }

  const MAX_LOGS := 100

  datatype LogEntry = LogEntry(seqNo: nat, text: string)

  /** The log has the newest events, at most `MAX_LOGS` of them, numbered from 1 over all events. */
  ghost predicate LogsShow(logs: seq<LogEntry>, events: seq<string>) {
    && |logs| == (if |events| < MAX_LOGS then |events| else MAX_LOGS)
    && forall i :: 0 <= i < |logs| ==>
         logs[i] == LogEntry(|events| - |logs| + i + 1, events[|events| - |logs| + i])
  }

  method ExtendLogs(logs: seq<LogEntry>, entry: LogEntry, ghost events: seq<string>) returns (extended: seq<LogEntry>)
    requires LogsShow(logs, events) && entry.seqNo == |events| + 1
    ensures LogsShow(extended, events + [entry.text])
  {
    extended := logs + [entry];
    if |extended| > MAX_LOGS {
      extended := extended[|extended| - MAX_LOGS..];
    }
  }

  class ConnLog {
    var live: LiveSet
    var journal: seq<Entry>
    var version: nat
    var logs: seq<LogEntry>
    var nextSeq: nat
    var totalConnections: nat
    ghost var events: seq<string>
    ghost var history: seq<Entry>
    ghost var pending: multiset<Change>

    ghost predicate Valid()
      reads this
    {
      && journal == Newest(history)
      && LogsShow(logs, events) && nextSeq == |events| + 1 && totalConnections == |events|
    }

    ghost function Contents(): State
      reads this
    {
      State(live, pending, history, version)
    }

    constructor ()
      ensures Valid() && Contents() == START && events == []
    {
      logs, nextSeq, totalConnections, events := [], 1, 0, [];
      live, journal, version := map[], [], 0;
      history, pending := [], multiset{};
    }

    /** The capacity check, which stops counting at the limit. */
    method Full() returns (full: bool)
      ensures full <==> |live| >= MAX_ACTIVE
    {
      var rest, count := live.Keys, 0;
      while rest != {} && count < MAX_ACTIVE
        invariant count + |rest| == |live.Keys| && count <= MAX_ACTIVE
        decreases rest
      {
        var id :| id in rest;
        rest, count := rest - {id}, count + 1;
      }
      assert |live.Keys| == |live|;
      full := count >= MAX_ACTIVE;
    }

    method Store(conn: Conn)
      requires Valid()
      modifies this`live, this`pending
      ensures Valid() && Next(old(Contents()), Begin(Add(conn)), Contents())
    {
      live, pending := live[conn.id := conn], pending + multiset{Add(conn)};
    }

    method Delete(id: string)
      requires Valid()
      modifies this`live, this`pending
      ensures Valid() && Next(old(Contents()), Begin(Remove(id)), Contents())
    {
      live, pending := live - {id}, pending + multiset{Remove(id)};
    }

    /** The locked part of a change. */
    method Append(change: Change)
      requires Valid() && change in pending
      modifies this`journal, this`version, this`history, this`pending
      ensures Valid() && Next(old(Contents()), Commit(change), Contents())
    {
      version := version + 1;
      journal, history := Extend(journal, Entry(version, change), history);
      pending := pending - multiset{change};
    }

    /** A log event takes a number of its own and one of the version's. */
    method Log(event: string)
      requires Valid()
      modifies this`version, this`logs, this`nextSeq, this`totalConnections, this`events
      ensures Valid() && Next(old(Contents()), LogEvent, Contents()) && events == old(events) + [event]
    {
      var seqNo := nextSeq;
      nextSeq := nextSeq + 1;
      logs := ExtendLogs(logs, LogEntry(seqNo, event), events);
      version := version + 1;
      totalConnections := totalConnections + 1;
      events := events + [event];
    }

    /** Without interference, a tracked connection is live and journalled, and a full set refuses it. */
    method TrackActive(conn: Conn)
      requires Valid()
      modifies this`live, this`journal, this`version, this`history, this`pending
      ensures Valid()
      ensures Contents() == if old(|live|) >= MAX_ACTIVE then old(Contents())
                            else State(old(live)[conn.id := conn], old(pending),
                                       old(history) + [Entry(old(version) + 1, Add(conn))], old(version) + 1)
    {
      var full := Full();
      if full { return; }
      Store(conn);
      Append(Add(conn));
    }

    method RemoveActive(id: string)
      requires Valid()
      modifies this`live, this`journal, this`version, this`history, this`pending
      ensures Valid()
      ensures Contents() == if id !in old(live) then old(Contents())
                            else State(old(live) - {id}, old(pending),
                                       old(history) + [Entry(old(version) + 1, Remove(id))], old(version) + 1)
    {
      if id !in live { return; }
      Delete(id);
      Append(Remove(id));
    }

    /** The first locked region of a poll. */
    method Decide(cursor: nat) returns (stale: bool)
      requires Valid()
      ensures stale <==> IsStale(Newest(history), version, cursor)
      ensures stale <==> journal == [] || cursor < journal[0].seqNo || version < cursor
    {
      var firstSeq := 0;
      if |journal| > 0 { firstSeq := journal[0].seqNo; }
      stale := |journal| == 0 || cursor < firstSeq || cursor > version;
    }

    /** The second locked region of a poll that found its cursor fresh. */
    method EntriesAfter(cursor: nat) returns (entries: seq<Entry>)
      requires Valid()
      ensures entries == After(Newest(history), cursor)
    {
      entries := [];
      for i := 0 to |journal|
        invariant entries == After(journal[..i], cursor)
      {
        assert journal[..i + 1][..i] == journal[..i];
        if journal[i].seqNo > cursor { entries := entries + [journal[i]]; }
      }
      assert journal[..|journal|] == journal;
    }

    /** Without interference between its regions, a poll gets exactly what its one state holds. */
    method GetActiveConnsAfterSeq(cursor: nat) returns (entries: seq<Entry>, conns: LiveSet, stale: bool)
      requires Valid()
      ensures stale <==> IsStale(Newest(history), version, cursor)
      ensures history == [] || cursor > version ==> stale && conns == live
      ensures stale ==> entries == [] && conns == live
      ensures !stale ==> entries == After(Newest(history), cursor) && conns == map[]
    {
      entries, conns := [], map[];
      stale := Decide(cursor);
      if stale { conns := live; } else { entries := EntriesAfter(cursor); }
    }
  }
}
