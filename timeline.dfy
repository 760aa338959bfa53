/** The status table and the derivation of a study's timeline from its current status
    (src/App.tsx, `statusMap` and the mapping inside `fetchStudyStatus`). */
module Timeline {
  import opened Options
  import opened Types
  import opened Builtins

  /** The key under which a stage is stored in the status table. */
  function Key(s: Stage): string {
    match s
    case SendComplete => "send_complete"
    case ReceivedCentral => "received_central"
    case SentToAi => "sent_to_ai"
    case AiProcessing => "ai_processing"
    case ResultsReceived => "results_received"
  }

  /** The position of a stage in the pipeline, counted from 0: an explicit rank that does not
      depend on how the table is written. */
  function Rank(s: Stage): nat {
    match s
    case SendComplete => 0
    case ReceivedCentral => 1
    case SentToAi => 2
    case AiProcessing => 3
    case ResultsReceived => 4
  }

  /** The stage a status string names, if it names one. */
  function StageOf(key: string): (r: Option<Stage>)
    ensures r.Some? ==> Key(r.value) == key
    ensures r.None? ==> forall s: Stage :: Key(s) != key
  {
    if key == "send_complete" then Some(SendComplete)
    else if key == "received_central" then Some(ReceivedCentral)
    else if key == "sent_to_ai" then Some(SentToAi)
    else if key == "ai_processing" then Some(AiProcessing)
    else if key == "results_received" then Some(ResultsReceived)
    else None
  }

  /** Every stage's key names that stage, so different stages have different keys. */
  lemma StageOfKey(s: Stage)
    ensures StageOf(Key(s)) == Some(s)
  {
  }

  /** The status table in insertion order: each key with its blank, pending entry. */
  const StatusMap: seq<(string, TimelineEvent)> := [
    ("send_complete", TimelineEvent(SendComplete, "Send Complete", "", false)),
    ("received_central", TimelineEvent(ReceivedCentral, "Received at Central Server", "", false)),
    ("sent_to_ai", TimelineEvent(SentToAi, "Sent to AI", "", false)),
    ("ai_processing", TimelineEvent(AiProcessing, "AI Processing", "", false)),
    ("results_received", TimelineEvent(ResultsReceived, "Results Received", "", false))
  ]

  /** The keys of a table, in order (`Object.keys`). */
  function KeysOf(table: seq<(string, TimelineEvent)>): (keys: seq<string>)
    ensures |keys| == |table| && forall i :: 0 <= i < |table| ==> keys[i] == table[i].0
  {
    if table == [] then [] else [table[0].0] + KeysOf(table[1..])
  }

  /** The entries of a table, in order (`Object.values`). */
  function EntriesOf(table: seq<(string, TimelineEvent)>): (entries: seq<TimelineEvent>)
    ensures |entries| == |table| && forall i :: 0 <= i < |table| ==> entries[i] == table[i].1
  {
    if table == [] then [] else [table[0].1] + EntriesOf(table[1..])
  }

  /** `Object.keys(statusMap)`. */
  const Keys: seq<string> := KeysOf(StatusMap)

  /** The table's entries as they are: every stage pending, no timestamp. */
  const PendingTimeline: seq<TimelineEvent> := EntriesOf(StatusMap)

  /** Every table entry sits at its stage's rank, under its stage's key, blank and pending. */
  lemma StatusMapWellFormed()
    ensures |StatusMap| == 5
    ensures forall i :: 0 <= i < |StatusMap| ==>
      && Rank(StatusMap[i].1.status) == i
      && StatusMap[i].0 == Key(StatusMap[i].1.status)
      && StatusMap[i].1.timestamp == ""
      && !StatusMap[i].1.completed
  {
  }

  /** The table row at position `i` sits at its stage's rank, under its stage's key. */
  lemma StatusRow(i: nat)
    requires i < |StatusMap|
    ensures Rank(StatusMap[i].1.status) == i && StatusMap[i].0 == Key(StatusMap[i].1.status)
  {
  }

  /** Every stage has its row at its rank. */
  lemma RowOfStage(s: Stage)
    ensures Rank(s) < |StatusMap| && StatusMap[Rank(s)].1.status == s
  {
  }

  /** `Object.keys(statusMap).indexOf` finds a stage's key at the stage's rank. */
  lemma IndexOfStageKey(s: Stage)
    ensures IndexOf(Keys, Key(s)) == Rank(s) as int
  {
    RowOfStage(s);
    StatusRow(Rank(s));
    forall j | 0 <= j < Rank(s)
      ensures Keys[..Rank(s)][j] != Key(s)
    {
      StatusRow(j);
      StageOfKey(s);
      StageOfKey(StatusMap[j].1.status);
    }
    IndexOfFirst(Keys, Rank(s), Key(s));
  }

  /** `Object.keys(statusMap).indexOf(x)` is the rank of the stage `x` names, and -1 for any
      other string. */
  lemma IndexOfKey(x: string)
    ensures IndexOf(Keys, x) == if StageOf(x).Some? then Rank(StageOf(x).value) as int else -1
  {
    if StageOf(x).Some? {
      IndexOfStageKey(StageOf(x).value);
    } else {
      forall j | 0 <= j < |Keys|
        ensures Keys[j] != x
      {
        StatusRow(j);
      }
    }
  }

  /** The entry the mapping produces for the table row at position `i`. */
  function StampedEntry(i: nat, current: string, timestamp: string): (e: TimelineEvent)
    requires i < |StatusMap|
    ensures e.status == StatusMap[i].1.status && e.caption == StatusMap[i].1.caption
    ensures e.timestamp == if Key(e.status) == current then timestamp else ""
    ensures e.completed <==> StageOf(current).Some? && Rank(e.status) <= Rank(StageOf(current).value)
  {
    var (key, entry) := StatusMap[i];
    StatusRow(i);
    StageOfKey(entry.status);
    IndexOfStageKey(entry.status);
    IndexOfKey(current);
    TimelineEvent(entry.status, entry.caption,
                  if key == current then timestamp else "",
                  IndexOf(Keys, key) <= IndexOf(Keys, current))
  }

  /** The timeline shown for a study whose current status is `current`, stamped `timestamp`:
      one entry per table row, in table order. */
  function DeriveTimeline(current: string, timestamp: string): (events: seq<TimelineEvent>)
    ensures |events| == |StatusMap|
    ensures forall i :: 0 <= i < |events| ==>
      events[i].status == StatusMap[i].1.status && events[i].caption == StatusMap[i].1.caption
    ensures forall i :: 0 <= i < |events| ==>
      events[i].timestamp == if Key(events[i].status) == current then timestamp else ""
    ensures forall i :: 0 <= i < |events| ==>
      (events[i].completed <==> StageOf(current).Some? && Rank(events[i].status) <= Rank(StageOf(current).value))
  {
    var events := seq(|StatusMap|, i requires 0 <= i < |StatusMap| => StampedEntry(i, current, timestamp));
    assert forall i :: 0 <= i < |events| ==> events[i] == StampedEntry(i, current, timestamp);
    events
  }

  /** The number of completed entries of a timeline. */
  function CountCompleted(events: seq<TimelineEvent>): (n: nat)
    ensures n <= |events|
  {
    if events == [] then 0 else (if events[0].completed then 1 else 0) + CountCompleted(events[1..])
  }

  /** A timeline whose completed entries are exactly its first `k` has `k` completed entries. */
  lemma {:induction false} CountOfPrefix(events: seq<TimelineEvent>, k: nat)
    requires k <= |events|
    requires forall i :: 0 <= i < |events| ==> (events[i].completed <==> i < k)
    ensures CountCompleted(events) == k
  {
    if events != [] {
      CountOfPrefix(events[1..], if k == 0 then 0 else k - 1);
    }
  }

  /** For a known status, the completed entries are the prefix up to and including the current
      stage: as many as its rank plus one. */
  lemma CompletedPrefix(current: string, timestamp: string)
    requires StageOf(current).Some?
    ensures var events := DeriveTimeline(current, timestamp);
            var k := Rank(StageOf(current).value);
            && (forall i :: 0 <= i < |events| ==> (events[i].completed <==> i <= k))
            && CountCompleted(events) == k + 1
  {
    var events := DeriveTimeline(current, timestamp);
    StatusMapWellFormed();
    CountOfPrefix(events, Rank(StageOf(current).value) + 1);
  }

  /** For a known status, the current stage's entry carries the timestamp and every other
      entry carries none. */
  lemma OnlyCurrentStamped(current: string, timestamp: string)
    requires StageOf(current).Some?
    ensures var events := DeriveTimeline(current, timestamp);
            var k := Rank(StageOf(current).value);
            && events[k].timestamp == timestamp
            && forall i :: 0 <= i < |events| && i != k ==> events[i].timestamp == ""
  {
    var events := DeriveTimeline(current, timestamp);
    var s := StageOf(current).value;
    RowOfStage(s);
    forall i | 0 <= i < |events| && i != Rank(s)
      ensures events[i].timestamp == ""
    {
      StatusRow(i);
      StageOfKey(events[i].status);
      assert Key(events[i].status) != current;
    }
  }

  /** For a status that names no stage (`indexOf` gives -1) the timeline is the table itself:
      nothing completed and no timestamp anywhere. */
  lemma UnknownStatusAllPending(current: string, timestamp: string)
    requires StageOf(current).None?
    ensures DeriveTimeline(current, timestamp) == PendingTimeline
    ensures CountCompleted(PendingTimeline) == 0
  {
    var events := DeriveTimeline(current, timestamp);
    forall i | 0 <= i < |events|
      ensures events[i] == PendingTimeline[i]
    {
      StatusMapWellFormed();
    }
    assert events == PendingTimeline;
    forall i | 0 <= i < |PendingTimeline|
      ensures !PendingTimeline[i].completed
    {
      StatusMapWellFormed();
    }
    CountOfPrefix(PendingTimeline, 0);
  }
}
