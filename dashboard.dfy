/** The dashboard's state and handlers (src/App.tsx): the mock lookup table, the statistics
    shown, and the React state the lookup, search and mount handlers update. */
module Dashboard {
  import opened Options
  import opened Types
  import opened Timeline
  import opened Routing

  /** The message a lookup of an unknown token shows. */
  const StudyNotFound: string := "Study not found"

  /** The statistics shown after every successful lookup. */
  const MockStatistics: Statistics := Statistics(45.0, 30.0, 128.0, 98.5)

  /** The timestamps the page computes from the clock when it loads, one per mock study. */
  datatype LoadTimes = LoadTimes(study001: string, study002: string, study003: string, study007: string)

  /** The lookup table of known study tokens. */
  function MockStudyData(times: LoadTimes): map<string, StudyRecord> {
    map[
      "STUDY001" := StudyRecord("results_received", times.study001),
      "STUDY002" := StudyRecord("ai_processing", times.study002),
      "STUDY003" := StudyRecord("send_complete", times.study003),
      "STUDY007" := StudyRecord("results_received", times.study007)
    ]
  }

  /** The dashboard page: one field per piece of React state, plus the browser location. */
  class App {
    var token: string
    var isSearching: bool
    var timelineEvents: seq<TimelineEvent>
    var statistics: Statistics
    var error: Option<string>
    var loading: bool
    /** `window.location.pathname`. */
    var pathname: string
    /** The URLs pushed onto the browser history, oldest first. */
    var pushed: seq<string>
    const studyData: map<string, StudyRecord>

    /** The page as first rendered at `initialPath`, before its mount effect runs. */
    constructor (initialPath: string, times: LoadTimes)
      ensures token == "" && !isSearching && timelineEvents == [] && statistics == MockStatistics
      ensures error == None && !loading
      ensures pathname == initialPath && pushed == [] && studyData == MockStudyData(times)
    {
      token := "";
      isSearching := false;
      timelineEvents := [];
      statistics := MockStatistics;
      error := None;
      loading := false;
      pathname := initialPath;
      pushed := [];
      studyData := MockStudyData(times);
    }

    /** What a finished lookup of `studyToken` leaves on screen, relative to before it: an
        unknown token shows the not-found message and keeps the previous timeline, statistics
        and visibility; a known one clears the message and shows its derived timeline and the
        statistics. Loading is over either way. */
    twostate predicate LookedUp(studyToken: string)
      reads this
    {
      && !loading
      && (studyToken !in studyData ==>
            && error == Some(StudyNotFound)
            && timelineEvents == old(timelineEvents)
            && statistics == old(statistics)
            && isSearching == old(isSearching))
      && (studyToken in studyData ==>
            && error == None
            && isSearching
            && statistics == MockStatistics
            && timelineEvents == DeriveTimeline(studyData[studyToken].status, studyData[studyToken].timestamp))
    }

    /** The input's change handler. */
    method SetToken(value: string)
      modifies this
      ensures token == value
      ensures isSearching == old(isSearching) && timelineEvents == old(timelineEvents)
      ensures statistics == old(statistics) && error == old(error) && loading == old(loading)
      ensures pathname == old(pathname) && pushed == old(pushed)
    {
      token := value;
    }

    /** Looks `studyToken` up in the table and shows the result. */
    method FetchStudyStatus(studyToken: string)
      modifies this
      ensures !loading
      ensures studyToken !in studyData ==>
        && error == Some(StudyNotFound)
        && timelineEvents == old(timelineEvents)
        && statistics == old(statistics)
        && isSearching == old(isSearching)
      ensures studyToken in studyData ==>
        && error == None
        && isSearching
        && statistics == MockStatistics
        && timelineEvents == DeriveTimeline(studyData[studyToken].status, studyData[studyToken].timestamp)
      ensures LookedUp(studyToken)
      ensures token == old(token) && pathname == old(pathname) && pushed == old(pushed)
    {
      loading := true;
      error := None;
      if studyToken !in studyData {
        error := Some(StudyNotFound);
      } else {
        var record := studyData[studyToken];
        timelineEvents := DeriveTimeline(record.status, record.timestamp);
        statistics := MockStatistics;
        isSearching := true;
      }
      loading := false;
    }

    /** The search form's submit handler: records the token in the URL, then looks it up. */
    method HandleSearch()
      modifies this
      ensures pathname == SearchPath(token) && pushed == old(pushed) + [SearchPath(token)]
      ensures token == old(token)
      ensures LookedUp(token)
    {
      var newUrl := SearchPath(token);
      pushed := pushed + [newUrl];
      pathname := newUrl;
      FetchStudyStatus(token);
    }

    /** The mount effect: looks up the token the path carries, if it carries one. */
    method OnMount()
      modifies this
      ensures pathname == old(pathname) && pushed == old(pushed)
      ensures ExtractDecodedToken(pathname).None? ==>
        && token == old(token) && isSearching == old(isSearching)
        && timelineEvents == old(timelineEvents) && statistics == old(statistics)
        && error == old(error) && loading == old(loading)
      ensures ExtractDecodedToken(pathname).Some? ==>
        token == ExtractDecodedToken(pathname).value && LookedUp(token)
    {
      var found := ExtractDecodedToken(pathname);
      if found.Some? {
        token := found.value;
        FetchStudyStatus(found.value);
      }
    }
  }

  /** Two loads of the page hold the same tokens with the same statuses; only the timestamps,
      read from the clock at each load, may differ. */
  lemma SameTableUpToTimes(times1: LoadTimes, times2: LoadTimes)
    ensures MockStudyData(times1).Keys == MockStudyData(times2).Keys
    ensures forall t :: t in MockStudyData(times1) ==>
      MockStudyData(times1)[t].status == MockStudyData(times2)[t].status
  {
  }

  /** Two timelines list the same stages, with the same labels, completed alike; they may
      differ in their timestamps. */
  predicate SameStages(events1: seq<TimelineEvent>, events2: seq<TimelineEvent>) {
    && |events1| == |events2|
    && forall i :: 0 <= i < |events1| ==>
         && events1[i].status == events2[i].status
         && events1[i].caption == events2[i].caption
         && events1[i].completed == events2[i].completed
  }

  /** Two timelines derived from the same status differ at most in their timestamps. */
  lemma SameStatusSameStages(status: string, stamp1: string, stamp2: string)
    ensures SameStages(DeriveTimeline(status, stamp1), DeriveTimeline(status, stamp2))
  {
  }

  /** Searching for a token on a fresh page, then loading the page again at the path the search
      wrote (a new load, with its own clock reading), shows the same token, message, statistics
      and visibility, and a timeline with the same stages completed; only the timestamps follow
      the new load. */
  method SearchThenReload(times1: LoadTimes, times2: LoadTimes, t: string) returns (searched: App, reloaded: App)
    requires t != []
    ensures reloaded.token == searched.token == t
    ensures reloaded.error == searched.error
    ensures reloaded.statistics == searched.statistics
    ensures reloaded.isSearching == searched.isSearching
    ensures SameStages(searched.timelineEvents, reloaded.timelineEvents)
    ensures t in MockStudyData(times2) ==>
      reloaded.timelineEvents == DeriveTimeline(MockStudyData(times2)[t].status, MockStudyData(times2)[t].timestamp)
  {
    var data1, data2 := MockStudyData(times1), MockStudyData(times2);
    SameTableUpToTimes(times1, times2);
    searched := new App("/", times1);
    RootPathCarriesNoToken();
    searched.OnMount();
    searched.SetToken(t);
    searched.HandleSearch();
    SearchPathRoundTrip(t);
    reloaded := new App(searched.pathname, times2);
    reloaded.OnMount();
    if t in data1 {
      SameStatusSameStages(data1[t].status, data1[t].timestamp, data2[t].timestamp);
    } else {
      assert t !in data2;
    }
  }

  /** Every status in the table names a stage. */
  lemma MockStatusesKnown(times: LoadTimes)
    ensures forall t :: t in MockStudyData(times) ==> StageOf(MockStudyData(times)[t].status).Some?
  {
  }

  /** STUDY001 (`results_received`) shows all five stages completed, the last one stamped. */
  lemma Study001AllCompleted(times: LoadTimes)
    ensures var record := MockStudyData(times)["STUDY001"];
            var events := DeriveTimeline(record.status, record.timestamp);
            && |events| == 5 && CountCompleted(events) == 5
            && (forall i :: 0 <= i < 5 ==> events[i].completed)
            && events[4].timestamp == times.study001
            && (forall i :: 0 <= i < 4 ==> events[i].timestamp == "")
  {
    assert MockStudyData(times)["STUDY001"] == StudyRecord("results_received", times.study001);
    assert StageOf("results_received") == Some(ResultsReceived);
    assert Rank(ResultsReceived) == 4;
    CompletedPrefix("results_received", times.study001);
    OnlyCurrentStamped("results_received", times.study001);
  }

  /** STUDY002 (`ai_processing`) shows the first four stages completed, the fourth stamped. */
  lemma Study002FourCompleted(times: LoadTimes)
    ensures var record := MockStudyData(times)["STUDY002"];
            var events := DeriveTimeline(record.status, record.timestamp);
            && |events| == 5 && CountCompleted(events) == 4
            && (forall i :: 0 <= i < 5 ==> (events[i].completed <==> i < 4))
            && events[3].timestamp == times.study002
            && (forall i :: 0 <= i < 5 && i != 3 ==> events[i].timestamp == "")
  {
    assert MockStudyData(times)["STUDY002"] == StudyRecord("ai_processing", times.study002);
    assert StageOf("ai_processing") == Some(AiProcessing);
    CompletedPrefix("ai_processing", times.study002);
    OnlyCurrentStamped("ai_processing", times.study002);
  }

  /** STUDY003 (`send_complete`) shows only the first stage completed and stamped. */
  lemma Study003OnlyFirst(times: LoadTimes)
    ensures var record := MockStudyData(times)["STUDY003"];
            var events := DeriveTimeline(record.status, record.timestamp);
            && |events| == 5 && CountCompleted(events) == 1
            && (forall i :: 0 <= i < 5 ==> (events[i].completed <==> i == 0))
            && events[0].timestamp == times.study003
            && (forall i :: 1 <= i < 5 ==> events[i].timestamp == "")
  {
    assert MockStudyData(times)["STUDY003"] == StudyRecord("send_complete", times.study003);
    assert StageOf("send_complete") == Some(SendComplete);
    CompletedPrefix("send_complete", times.study003);
    OnlyCurrentStamped("send_complete", times.study003);
  }

  /** The property names every plain JavaScript object inherits from `Object.prototype`. */
  const InheritedNames: set<string> := {
    "constructor", "__proto__", "hasOwnProperty", "isPrototypeOf", "propertyIsEnumerable",
    "toLocaleString", "toString", "valueOf",
    "__defineGetter__", "__defineSetter__", "__lookupGetter__", "__lookupSetter__"
  }

  /** What reading a property of a plain object yields. */
  datatype Property = Own(record: StudyRecord) | Inherited | Missing

  /** As written: `mockStudyData[token]` finds the table's own entries and also the members the
      table inherits from `Object.prototype`. */
  function PropertyOf(data: map<string, StudyRecord>, token: string): (p: Property)
    ensures p.Missing? <==> token !in data && token !in InheritedNames
  {
    if token in data then Own(data[token])
    else if token in InheritedNames then Inherited
    else Missing
  }

  /** As written: the timeline the lookup shows for `token`, or None where it reports
      'Study not found'. An inherited member is truthy and has no `status`, so it passes the
      check and, its status being undefined, yields the all-pending table. */
  function TimelineAsWritten(data: map<string, StudyRecord>, token: string): (r: Option<seq<TimelineEvent>>)
    ensures r.None? <==> token !in data && token !in InheritedNames
    ensures token in data ==> r == Some(DeriveTimeline(data[token].status, data[token].timestamp))
    ensures token !in data && token in InheritedNames ==> r == Some(PendingTimeline)
  {
    match PropertyOf(data, token)
    case Own(record) => Some(DeriveTimeline(record.status, record.timestamp))
    case Inherited => Some(PendingTimeline)
    case Missing => None
  }

  /** The token `constructor` names no study, yet as written it shows an all-pending timeline
      instead of 'Study not found'. */
  lemma InheritedNameShowsTimeline(times: LoadTimes)
    ensures "constructor" !in MockStudyData(times)
    ensures TimelineAsWritten(MockStudyData(times), "constructor") == Some(PendingTimeline)
    ensures CountCompleted(PendingTimeline) == 0
  {
    var data := MockStudyData(times);
    assert data.Keys == {"STUDY001", "STUDY002", "STUDY003", "STUDY007"};
    assert |"constructor"| == 11;
    assert "constructor" in InheritedNames;
    assert PropertyOf(data, "constructor") == Inherited;
    UnknownStatusAllPending("", "");
  }
}
