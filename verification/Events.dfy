/**
 The Node service: validation of Kafka messages and of events, the append-only
 event store, and its queries.
 */
module Events {
  import opened Text
  import opened Timestamps
  import opened Uuids
  import opened Devices
  import opened Bags

  // ---------- Messages and events ----------

  /** The JSON object the Go publisher writes to the topic. */
  datatype Message = Message(kind: string, deviceId: string, name: string, timestamp: string)

  /** A member of an incoming JSON object: absent or null, a string, or any other value. */
  datatype Field = Missing | Str(text: string) | OtherValue

  /** What a Kafka message's bytes may hold: no JSON, `null`, or a value with these members. */
  datatype Raw = NotJson | JsonNull | Members(kind: Field, deviceId: Field, name: Field, timestamp: Field)

  datatype Event = Event(id: string, kind: string, deviceId: string, name: string,
                         timestamp: string, actor: Option<string>, description: Option<string>)

  /** The arguments of `createEvent`. */
  datatype Draft = Draft(kind: Field, deviceId: Field, name: Field,
                         timestamp: Option<string>, actor: Option<string>, description: Option<string>)

  datatype Complaint = TypeMissing | DeviceIdMissing | DeviceIdNotV4 | NameMissing

  function KindText(kind: EventKind): string {
    match kind
    case Created => "device.created"
    case Updated => "device.updated"
    case Deleted => "device.deleted"
  }

  predicate KnownKind(s: string) {
    s in {"device.created", "device.updated", "device.deleted"}
  }

  /** A string with something visible in it. */
  predicate Visible(f: Field) {
    f.Str? && !Blank(f.text)
  }

  // ---------- createEvent ----------

  /** The complaints `createEvent` collects, in its order. */
  function Complaints(d: Draft): seq<Complaint> {
    (if Visible(d.kind) then [] else [TypeMissing])
    + (if !Visible(d.deviceId) then [DeviceIdMissing] else if !MatchesV4(d.deviceId.text) then [DeviceIdNotV4] else [])
    + (if Visible(d.name) then [] else [NameMissing])
  }

  function Rank(c: Complaint): nat {
    match c
    case TypeMissing => 0
    case DeviceIdMissing => 1
    case DeviceIdNotV4 => 2
    case NameMissing => 3
  }

  /**
   Who is told what: of type, id and name each that is no text with a visible
   character, and an id that is one but no version-4 UUID; once each, in this order.
   */
  lemma ComplaintsSayWhy(d: Draft)
    ensures var said := Complaints(d);
            && (TypeMissing in said <==> !d.kind.Str? || Trim(d.kind.text) == "")
            && (DeviceIdMissing in said <==> !d.deviceId.Str? || Trim(d.deviceId.text) == "")
            && (DeviceIdNotV4 in said <==>
                  d.deviceId.Str? && Trim(d.deviceId.text) != "" && !MatchesV4(d.deviceId.text))
            && (NameMissing in said <==> !d.name.Str? || Trim(d.name.text) == "")
            && forall i, j :: 0 <= i < j < |said| ==> Rank(said[i]) < Rank(said[j])
  {
    if d.kind.Str? { TrimEmptyIffBlank(d.kind.text); }
    if d.deviceId.Str? { TrimEmptyIffBlank(d.deviceId.text); }
    if d.name.Str? { TrimEmptyIffBlank(d.name.text); }
    assert TypeMissing != DeviceIdMissing;
  }

  /** What every event satisfies. */
  predicate EventOk(e: Event) {
    !Blank(e.kind) && MatchesV4(e.deviceId) && !Blank(e.name) && e.timestamp != ""
  }

  /** `timestamp || new Date().toISOString()`. */
  function StampOr(d: Draft, now: UtcTime): string
    requires ValidTime(now)
  {
    if d.timestamp.Some? && d.timestamp.value != "" then d.timestamp.value else FormatMillis(now)
  }

  /** `e` carries the draft's own fields, the drawn id, and the given or default timestamp. */
  predicate Describes(e: Event, d: Draft, id: string, now: UtcTime)
    requires ValidTime(now)
  {
    && EventOk(e) && e.id == id && e.timestamp == StampOr(d, now)
    && d == Draft(Str(e.kind), Str(e.deviceId), Str(e.name), d.timestamp, e.actor, e.description)
  }

  datatype Creation = Made(event: Event) | Invalid(errors: seq<Complaint>)

  /** `createEvent`, drawing `id` and, if the draft has no timestamp, the time `now`. */
  method CreateEvent(d: Draft, id: string, now: UtcTime) returns (r: Creation)
    requires ValidTime(now)
    ensures r.Made? <==> Visible(d.kind) && Visible(d.deviceId) && MatchesV4(d.deviceId.text) && Visible(d.name)
    ensures r.Invalid? ==> r.errors == Complaints(d) && r.errors != []
    ensures r.Made? ==> Describes(r.event, d, id, now)
    ensures r.Made? ==> r.event.timestamp
                        == if d.timestamp == None || d.timestamp == Some("") then FormatMillis(now) else d.timestamp.value
  {
    var errors: seq<Complaint> := [];
    if d.kind.Str? { TrimEmptyIffBlank(d.kind.text); }
    if d.deviceId.Str? { TrimEmptyIffBlank(d.deviceId.text); }
    if d.name.Str? { TrimEmptyIffBlank(d.name.text); }
    if !d.kind.Str? || Trim(d.kind.text) == "" {
      errors := errors + [TypeMissing];
    }
    if !d.deviceId.Str? || Trim(d.deviceId.text) == "" {
      errors := errors + [DeviceIdMissing];
    } else if !MatchesV4(d.deviceId.text) {
      errors := errors + [DeviceIdNotV4];
    }
    if !d.name.Str? || Trim(d.name.text) == "" {
      errors := errors + [NameMissing];
    }
    if |errors| > 0 {
      return Invalid(errors);
    }
    var timestamp := FormatMillis(now);
    if d.timestamp.Some? && d.timestamp.value != "" {
      timestamp := d.timestamp.value;
    }
    return Made(Event(id, d.kind.text, d.deviceId.text, d.name.text, timestamp, d.actor, d.description));
  }

  // ---------- Consumer validation ----------

  /** `#validate`: known type, visible device id and name, non-empty timestamp. */
  predicate ConsumerValid(raw: Raw) {
    && raw.Members?
    && raw.kind.Str? && raw.kind.text != "" && KnownKind(raw.kind.text)
    && raw.deviceId.Str? && raw.deviceId.text != "" && Trim(raw.deviceId.text) != ""
    && raw.name.Str? && raw.name.text != "" && Trim(raw.name.text) != ""
    && raw.timestamp.Str? && raw.timestamp.text != ""
  }

  function OfMessage(m: Message): Raw {
    Members(Str(m.kind), Str(m.deviceId), Str(m.name), Str(m.timestamp))
  }

  function DraftOf(raw: Raw): Draft
    requires raw.Members?
  {
    var at := if raw.timestamp.Str? then Some(raw.timestamp.text) else None;
    Draft(raw.kind, raw.deviceId, raw.name, at, None, None)
  }

  /** A message that passes the consumer's check and then `createEvent`'s. */
  predicate Accepted(m: Message) {
    KnownKind(m.kind) && MatchesV4(m.deviceId) && !Blank(m.name) && m.timestamp != ""
  }

  /** The event an accepted message becomes. */
  function EventOf(m: Message, id: string): Event {
    Event(id, m.kind, m.deviceId, m.name, m.timestamp, None, None)
  }

  /** The part of an event that came from its message. */
  function Content(e: Event): Message {
    Message(e.kind, e.deviceId, e.name, e.timestamp)
  }

  lemma HyphenatedIsVisible(s: string)
    requires Hyphenated(s)
    ensures !Blank(s)
  {
    assert !IsDash(0) && IsHex(s[0]);
    assert !IsSpace(s[0]);
  }

  /** Together the two validations accept exactly the messages `Accepted` describes. */
  lemma BothValidations(m: Message)
    ensures ConsumerValid(OfMessage(m)) && Complaints(DraftOf(OfMessage(m))) == [] <==> Accepted(m)
  {
    TrimEmptyIffBlank(m.name);
    TrimEmptyIffBlank(m.deviceId);
    if MatchesV4(m.deviceId) { HyphenatedIsVisible(m.deviceId); }
    if KnownKind(m.kind) { KnownKindsVisible(m.kind); }
    var d := DraftOf(OfMessage(m));
    assert Complaints(d) == [] <==>
           Visible(d.kind) && Visible(d.deviceId) && MatchesV4(d.deviceId.text) && Visible(d.name);
  }

  lemma KnownKindsVisible(s: string)
    requires KnownKind(s)
    ensures s != "" && !Blank(s)
  {
    assert !IsSpace(s[0]);
  }

  /** The message `publish` builds for one operation on a device, with the rendered time. */
  function BuildMessage(kind: EventKind, deviceId: string, name: string, stamp: string): Message {
    Message(KindText(kind), deviceId, name, stamp)
  }

  /**
   The contract between producer and consumer: a message about a device is
   stored if and only if the device's name has a visible character and the id
   is the device's own, up to letter case.
   */
  lemma ProducerConsumerContract(kind: EventKind, u: Uuid, text: string, name: string, at: UtcTime)
    requires ValidTime(at) && IsV4(u) && Resolve(text) == Some(u)
    ensures Accepted(BuildMessage(kind, text, name, FormatNano(at))) <==> !Blank(name) && Lower(text) == Print(u)
  {
    AcceptedSpellings(text, u);
    assert FormatNano(at) != "" by { assert |Pad(at.year, 4)| == 4; }
  }

  /** For the printed id, which creations and updates always use, only the name matters. */
  lemma PrintedIdContract(kind: EventKind, u: Uuid, name: string, at: UtcTime)
    requires ValidTime(at) && IsV4(u)
    ensures Accepted(BuildMessage(kind, Print(u), name, FormatNano(at))) <==> !Blank(name)
  {
    ResolvePrinted(u);
    PrintedMatchesIffV4(u);
    HyphenatedSpelling(Print(u), u);
    ProducerConsumerContract(kind, u, Print(u), name, at);
  }

  /** Go accepts a device named by one space; its events are all rejected. */
  lemma BlankNameIsLost(kind: EventKind, u: Uuid, at: UtcTime)
    requires ValidTime(at) && IsV4(u)
    ensures CheckFields(" ", "computer").None? && !Accepted(BuildMessage(kind, Print(u), " ", FormatNano(at)))
  {
    PrintedIdContract(kind, u, " ", at);
  }

  // ---------- Store ----------

  /** Descending by timestamp text. */
  predicate Descending(s: seq<Event>) {
    forall i, j :: 0 <= i < j < |s| ==> !LexLess(s[i].timestamp, s[j].timestamp)
  }

  /** A correct answer to a query: the matching events, newest text first, ties in any order. */
  ghost predicate IsAnswer(answer: seq<Event>, stored: seq<Event>, wanted: Event -> bool) {
    Descending(answer) && multiset(answer) == multiset(Filter(stored, wanted))
  }

  function Insert(e: Event, s: seq<Event>): seq<Event> {
    if s == [] || !LexLess(e.timestamp, s[0].timestamp) then [e] + s
    else [s[0]] + Insert(e, s[1..])
  }

  function SortDescending(s: seq<Event>): seq<Event> {
    if s == [] then [] else Insert(s[0], SortDescending(s[1..]))
  }

  lemma NotLessTransitive(a: string, b: string, c: string)
    requires !LexLess(a, b) && !LexLess(b, c)
    ensures !LexLess(a, c)
  {
    hide LexLess;
    LexTrichotomy(a, b);
    LexTrichotomy(b, c);
    LexTrichotomy(a, c);
    if LexLess(a, c) && LexLess(b, a) {
      LexTransitive(b, a, c);
    }
  }

  lemma PrependDescending(e: Event, s: seq<Event>)
    requires Descending(s) && forall x :: x in s ==> !LexLess(e.timestamp, x.timestamp)
    ensures Descending([e] + s)
  {
    hide LexLess;
  }

  lemma {:induction false} InsertSorts(e: Event, s: seq<Event>)
    requires Descending(s)
    ensures Descending(Insert(e, s)) && multiset(Insert(e, s)) == multiset(s) + multiset{e}
  {
    hide LexLess;
    if s == [] {
    } else if !LexLess(e.timestamp, s[0].timestamp) {
      forall x | x in s ensures !LexLess(e.timestamp, x.timestamp) {
        if x != s[0] {
          NotLessTransitive(e.timestamp, s[0].timestamp, x.timestamp);
        }
      }
      PrependDescending(e, s);
    } else {
      var t := Insert(e, s[1..]);
      InsertSorts(e, s[1..]);
      assert s == [s[0]] + s[1..];
      forall x | x in t ensures !LexLess(s[0].timestamp, x.timestamp) {
        assert x in multiset(t);
        LexTrichotomy(e.timestamp, s[0].timestamp);
        assert x == e || x in s[1..];
      }
      PrependDescending(s[0], t);
    }
  }

  lemma {:induction false} SortSorts(s: seq<Event>)
    ensures Descending(SortDescending(s)) && multiset(SortDescending(s)) == multiset(s)
  {
    if s == [] {
    } else {
      SortSorts(s[1..]);
      InsertSorts(s[0], SortDescending(s[1..]));
      assert s == [s[0]] + s[1..];
    }
  }

  /** What becomes of an `insertOne`: the driver throws unless the insertion is confirmed. */
  datatype Insertion = Confirmed | Unconfirmed | NotInserted

  /** `MongoEventRepository`: one append-only collection. */
  class EventRepository {
    var events: seq<Event>

    constructor ()
      ensures events == []
    {
      events := [];
    }

    /** `insertOne`; `ok` is false when it throws. */
    method Save(e: Event, how: Insertion) returns (ok: bool)
      modifies this
      ensures events == if how.NotInserted? then old(events) else old(events) + [e]
      ensures ok == how.Confirmed?
    {
      if !how.NotInserted? {
        events := events + [e];
      }
      return how.Confirmed?;
    }

    method FindByDeviceId(deviceId: string) returns (docs: seq<Event>)
      ensures IsAnswer(docs, events, (e: Event) => e.deviceId == deviceId)
    {
      var matching := Filter(events, (e: Event) => e.deviceId == deviceId);
      SortSorts(matching);
      docs := SortDescending(matching);
    }

    method FindByType(kind: string) returns (docs: seq<Event>)
      ensures IsAnswer(docs, events, (e: Event) => e.kind == kind)
    {
      var matching := Filter(events, (e: Event) => e.kind == kind);
      SortSorts(matching);
      docs := SortDescending(matching);
    }
  }

  /** What `LogEventUseCase.execute` returns or throws. */
  datatype Logging = Logged(event: Event) | Rejected(errors: seq<Complaint>) | StoreFailed

  class LogEventUseCase {
    const repo: EventRepository

    constructor (repo: EventRepository)
      ensures this.repo == repo
    {
      this.repo := repo;
    }

    /**
     `LogEventUseCase.execute`: an invalid draft and a failed insertion are
     errors of the caller; after the latter the event may or may not be stored.
     */
    method Execute(d: Draft, id: string, now: UtcTime, how: Insertion) returns (r: Logging)
      requires ValidTime(now)
      modifies repo
      ensures r.Rejected? <==> Complaints(d) != []
      ensures r.Rejected? ==> r.errors == Complaints(d) && repo.events == old(repo.events)
      ensures r.Logged? <==> Complaints(d) == [] && how.Confirmed?
      ensures r.Logged? ==> Describes(r.event, d, id, now) && repo.events == old(repo.events) + [r.event]
      ensures how.NotInserted? ==> repo.events == old(repo.events)
      ensures Complaints(d) == [] && !how.NotInserted? ==>
                && |repo.events| == |old(repo.events)| + 1 && old(repo.events) <= repo.events
                && Describes(repo.events[|old(repo.events)|], d, id, now)
    {
      var made := CreateEvent(d, id, now);
      if made.Invalid? {
        return Rejected(made.errors);
      }
      var ok := repo.Save(made.event, how);
      if !ok {
        return StoreFailed;
      }
      return Logged(made.event);
    }
  }

  /** What the consumer object has achieved so far. */
  datatype Session = Session(connected: bool, subscribed: bool, running: bool)

  class KafkaEventConsumer {
    const logEvent: LogEventUseCase
    var consumer: Option<Session>

    constructor (logEvent: LogEventUseCase)
      ensures this.logEvent == logEvent && consumer == None
    {
      this.logEvent := logEvent;
      consumer := None;
    }

    /** `start`: a failing call ends the start-up but is swallowed, and the consumer object stays set. */
    method Start(connects: bool, subscribes: bool, runs: bool)
      modifies this
      ensures consumer.Some?
      ensures consumer.value.running <==> connects && subscribes && runs
      ensures consumer.value.running ==> consumer.value.connected && consumer.value.subscribed
    {
      consumer := Some(Session(false, false, false));
      if !connects {
        return;
      }
      consumer := Some(Session(true, false, false));
      if !subscribes {
        return;
      }
      consumer := Some(Session(true, true, runs));
    }

    /** `stop` disconnects whatever `start` has set; an error is swallowed. */
    method Stop(disconnects: bool)
      modifies this
      ensures consumer.Some? <==> old(consumer).Some?
      ensures consumer.Some? && disconnects ==> !consumer.value.running
      ensures !disconnects ==> consumer == old(consumer)
    {
      if consumer.Some? && disconnects {
        consumer := Some(Session(false, false, false));
      }
    }

    /**
     `#handleMessage`: whatever arrives, exactly one event is appended if it has
     all four members as texts, the type is one of the three, the id a version-4
     UUID, the name visible and the timestamp non-empty, and the insertion does
     not fail; otherwise nothing happens.
     */
    method HandleMessage(raw: Raw, id: string, now: UtcTime, how: Insertion)
      requires ValidTime(now)
      modifies logEvent.repo
      ensures var stores :=
                && raw.Members? && !how.NotInserted?
                && raw.kind.Str? && raw.kind.text in {"device.created", "device.updated", "device.deleted"}
                && raw.deviceId.Str? && MatchesV4(raw.deviceId.text)
                && raw.name.Str? && !Blank(raw.name.text)
                && raw.timestamp.Str? && raw.timestamp.text != "";
              logEvent.repo.events == old(logEvent.repo.events) +
                if stores
                then [Event(id, raw.kind.text, raw.deviceId.text, raw.name.text, raw.timestamp.text, None, None)] else []
      ensures forall m :: raw == OfMessage(m) && Accepted(m) && !how.NotInserted?
                ==> logEvent.repo.events == old(logEvent.repo.events) + [EventOf(m, id)]
    {
      ghost var m := Message(
        if raw.Members? && raw.kind.Str? then raw.kind.text else "",
        if raw.Members? && raw.deviceId.Str? then raw.deviceId.text else "",
        if raw.Members? && raw.name.Str? then raw.name.text else "",
        if raw.Members? && raw.timestamp.Str? then raw.timestamp.text else "");
      BothValidations(m);
      assert ConsumerValid(raw) ==> raw == OfMessage(m);
      if raw.NotJson? || !ConsumerValid(raw) {
        return;
      }
      var swallowed := logEvent.Execute(DraftOf(raw), id, now, how);
      if Complaints(DraftOf(raw)) == [] && !how.NotInserted? {
        assert logEvent.repo.events[|old(logEvent.repo.events)|] == EventOf(m, id);
      }
    }
  }

  // ---------- Queries ----------

  /** `ListEventsUseCase.execute`: only version-4 ids are looked up. */
  predicate DeviceQueryAllowed(deviceId: Field) {
    deviceId.Str? && deviceId.text != "" && Trim(deviceId.text) != "" && MatchesV4(deviceId.text)
  }

  /** `ListEventsUseCase.executeByType`. */
  predicate TypeQueryAllowed(kind: Field) {
    kind.Str? && kind.text != "" && Trim(kind.text) != ""
  }

  datatype Listing = Refused | Listed(docs: seq<Event>)

  class ListEventsUseCase {
    const repo: EventRepository

    constructor (repo: EventRepository)
      ensures this.repo == repo
    {
      this.repo := repo;
    }

    method Execute(deviceId: Field) returns (r: Listing)
      ensures r.Listed? <==> deviceId.Str? && MatchesV4(deviceId.text)
      ensures r.Listed? ==> IsAnswer(r.docs, repo.events, (e: Event) => e.deviceId == deviceId.text)
    {
      if deviceId.Str? {
        TrimEmptyIffBlank(deviceId.text);
        if Hyphenated(deviceId.text) { HyphenatedIsVisible(deviceId.text); }
      }
      if !DeviceQueryAllowed(deviceId) {
        return Refused;
      }
      var docs := repo.FindByDeviceId(deviceId.text);
      return Listed(docs);
    }

    method ExecuteByType(kind: Field) returns (r: Listing)
      ensures r.Listed? <==> Visible(kind)
      ensures r.Listed? ==> IsAnswer(r.docs, repo.events, (e: Event) => e.kind == kind.text)
    {
      if kind.Str? {
        TrimEmptyIffBlank(kind.text);
      }
      if !TypeQueryAllowed(kind) {
        return Refused;
      }
      var docs := repo.FindByType(kind.text);
      return Listed(docs);
    }
  }

  /** Every valid stored event is found by a query on its own device id and by one on its own type. */
  lemma OwnQueriesFind(stored: seq<Event>, e: Event, byDevice: seq<Event>, byType: seq<Event>)
    requires e in stored && EventOk(e)
    requires IsAnswer(byDevice, stored, (x: Event) => x.deviceId == e.deviceId)
    requires IsAnswer(byType, stored, (x: Event) => x.kind == e.kind)
    ensures DeviceQueryAllowed(Str(e.deviceId)) && e in byDevice
    ensures TypeQueryAllowed(Str(e.kind)) && e in byType
  {
    TrimEmptyIffBlank(e.deviceId);
    TrimEmptyIffBlank(e.kind);
    HyphenatedIsVisible(e.deviceId);
    assert e in multiset(stored);
    AnswerHolds(byDevice, stored, (x: Event) => x.deviceId == e.deviceId, e);
    AnswerHolds(byType, stored, (x: Event) => x.kind == e.kind, e);
  }

  /** An answer holds exactly the stored events that match, each as often as stored. */
  lemma AnswerHolds(answer: seq<Event>, stored: seq<Event>, wanted: Event -> bool, e: Event)
    requires IsAnswer(answer, stored, wanted)
    ensures multiset(answer)[e] == if wanted(e) then multiset(stored)[e] else 0
    ensures e in answer <==> e in stored && wanted(e)
  {
    FilterCount(stored, wanted, e);
    assert e in answer <==> e in multiset(answer);
    assert e in stored <==> e in multiset(stored);
  }

  predicate DescendingTexts(s: seq<string>) {
    forall i, j :: 0 <= i < j < |s| ==> !LexLess(s[i], s[j])
  }

  lemma LargestFirst(a: seq<string>, b: seq<string>)
    requires a != [] && b != []
    requires DescendingTexts(a) && DescendingTexts(b) && multiset(a) == multiset(b)
    ensures a[0] == b[0]
  {
    assert a[0] in multiset(b) && b[0] in multiset(a);
    var i :| 0 <= i < |b| && b[i] == a[0];
    var j :| 0 <= j < |a| && a[j] == b[0];
    LexTrichotomy(a[0], b[0]);
  }

  lemma RestOfBag(a: seq<string>)
    requires a != []
    ensures multiset(a[1..]) == multiset(a) - multiset{a[0]}
  {
    assert a == [a[0]] + a[1..];
  }

  lemma {:induction false} DescendingUnique(a: seq<string>, b: seq<string>)
    requires DescendingTexts(a) && DescendingTexts(b) && multiset(a) == multiset(b)
    ensures a == b
  {
    hide LexLess;
    assert |b| == |multiset(b)| == |multiset(a)| == |a|;
    if a == [] {
    } else {
      LargestFirst(a, b);
      RestOfBag(a);
      RestOfBag(b);
      DescendingUnique(a[1..], b[1..]);
      assert a == [a[0]] + a[1..] && b == [b[0]] + b[1..];
    }
  }

  /** Two answers to one query may differ in the order of equal timestamps only. */
  lemma AnswersAgree(a: seq<Event>, b: seq<Event>, stored: seq<Event>, wanted: Event -> bool)
    requires IsAnswer(a, stored, wanted) && IsAnswer(b, stored, wanted)
    ensures |a| == |b| && forall i :: 0 <= i < |a| ==> a[i].timestamp == b[i].timestamp
  {
    var stamp := (e: Event) => e.timestamp;
    MapPermutation(a, b, stamp);
    DescendingUnique(Map(a, stamp), Map(b, stamp));
    assert forall i :: 0 <= i < |a| ==> Map(a, stamp)[i] == a[i].timestamp && Map(b, stamp)[i] == b[i].timestamp;
  }
}
