/** The cost event spool of `scripts/cost_event_publisher.py`: directories, retries,
    renames and crashes, as steps of one machine. */
module Spool {

  // ---------- Reading and validating a spool file ----------

  /** A JSON value as the validator meets it: `Text` is a string or a value printed as one, `LoneSurrogate` a string
      holding an escaped unpaired surrogate, which has no UTF-8 encoding, `Unhashable` a list or an object. */
  datatype FieldValue = Null | Text(s: string) | LoneSurrogate | Unhashable(s: string)

  datatype Decoded = NotJson | NotObject | Object(fields: map<string, FieldValue>)

  /** The parts that are libraries: SHA-256 in hexadecimal, the JSON parser and the UUID parser. */
  datatype Env = Env(sha256: string -> string, decode: string -> Decoded, isUuid: string -> bool, maxRetries: nat)

  const REQUIRED_FIELDS := ["session_id", "model_id", "reporting_source", "usage_source", "correlation_id"]
  const VALID_USAGE_SOURCES := {"MEASURED", "ESTIMATED", "UNKNOWN"}
  const VALID_REPORTING_SOURCES := {"build-loop", "claude-session", "codex", "unknown"}

  function Str(v: FieldValue): string {
    match v
    case Null => "None"
    case Text(s) => s
    case LoneSurrogate => ""
    case Unhashable(s) => s
  }

  predicate OneOf(fields: map<string, FieldValue>, name: string, valid: set<string>) {
    name !in fields || fields[name].Null? || (fields[name].Text? && fields[name].s in valid)
  }

  predicate IsUuid(env: Env, v: FieldValue) {
    !v.LoneSurrogate? && env.isUuid(Str(v))
  }

  /** `Raises`: the validator, or encoding the key, fails outside of every try, so process_file raises and the file
      is not moved. */
  datatype Inspection = Unparsable | Raises | Invalid | Event(fields: map<string, FieldValue>)

  function Inspect(env: Env, bytes: string): Inspection {
    match env.decode(bytes)
    case NotJson => Unparsable
    case NotObject => Raises
    case Object(fields) =>
      if ("usage_source" in fields && fields["usage_source"].Unhashable?)
         || ("reporting_source" in fields && fields["reporting_source"].Unhashable?) then Raises
      else if && (forall f | f in REQUIRED_FIELDS :: f in fields)
              && OneOf(fields, "usage_source", VALID_USAGE_SOURCES)
              && OneOf(fields, "reporting_source", VALID_REPORTING_SOURCES)
              && (fields["correlation_id"].Null? || IsUuid(env, fields["correlation_id"])) then
        if fields["session_id"].LoneSurrogate? || fields["model_id"].LoneSurrogate? then Raises else Event(fields)
      else Invalid
  }

  datatype Message = Message(key: string, bytes: string)

  /** The text that is hashed into the message key. */
  function KeyText(env: Env, bytes: string): string
    requires Inspect(env, bytes).Event?
  {
    var fields := Inspect(env, bytes).fields;
    assert forall f | f in REQUIRED_FIELDS :: f in fields;
    assert REQUIRED_FIELDS[0] in fields && REQUIRED_FIELDS[1] in fields && REQUIRED_FIELDS[2] in fields
        && REQUIRED_FIELDS[4] in fields;
    Str(fields["reporting_source"]) + ":" + Str(fields["session_id"]) + ":" + Str(fields["correlation_id"]) + ":"
    + Str(fields["model_id"]) + ":" + env.sha256(bytes)
  }

  /** The record sent for a file; everything in it but the emission time is determined by the bytes. */
  function MessageOf(env: Env, bytes: string): Message
    requires Inspect(env, bytes).Event?
  {
    Message(env.sha256(KeyText(env, bytes)), bytes)
  }

  // ---------- The machine ----------

  type Dir = map<string, string>

  datatype Pc =
    | Idle
    | Starting(name: string)                     // about to start the producer
    | Publishing(name: string, attempt: nat)
    | Archiving(name: string)                    // acknowledged, not yet renamed
    | Rejecting(name: string)
    | Annotating(name: string)                   // renamed, sidecar not yet written

  datatype Disk = Disk(root: Dir, published: Dir, rejected: Dir, sidecars: set<string>)

  /** What has happened so far: files put into the spool, acknowledged sends of each file, and
      interruptions of each file between acknowledgement and rename. */
  datatype History = History(arrived: Dir, acks: map<string, nat>, cutoffs: map<string, nat>)

  /** `log` is what the broker has, acknowledged or not. */
  datatype State = State(disk: Disk, log: seq<Message>, pc: Pc, history: History)

  datatype Label =
    | Arrive(name: string, bytes: string)
    | Pick(name: string)
    | Start | StartFails
    | SendAcked | SendFails(delivered: bool)
    | StopFails                                  // stopping the producer raises after the last send
    | Archive
    | Reject
    | Annotate
    | Crash

  function Count(m: map<string, nat>, name: string): nat {
    if name in m then m[name] else 0
  }

  predicate Enabled(env: Env, s: State, l: Label) {
    match l
    case Arrive(_, _) => true
    case Pick(name) => s.pc.Idle? && name in s.disk.root
    case Start => s.pc.Starting? && s.pc.name in s.disk.root && Inspect(env, s.disk.root[s.pc.name]).Event?
    case StartFails => s.pc.Starting?
    case SendAcked => s.pc.Publishing? && s.pc.name in s.disk.root && Inspect(env, s.disk.root[s.pc.name]).Event?
    case SendFails(_) => s.pc.Publishing? && s.pc.name in s.disk.root && Inspect(env, s.disk.root[s.pc.name]).Event?
    case StopFails => s.pc.Archiving? || s.pc.Rejecting?
    case Archive => s.pc.Archiving? && s.pc.name in s.disk.root
    case Reject => s.pc.Rejecting? && s.pc.name in s.disk.root
    case Annotate => s.pc.Annotating?
    case Crash => true
  }

  function Picked(env: Env, s: State, name: string): State
    requires name in s.disk.root
  {
    match Inspect(env, s.disk.root[name])
    case Unparsable => s.(pc := Rejecting(name))
    case Invalid => s.(pc := Rejecting(name))
    case Raises => s
    case Event(_) => s.(pc := Starting(name))
  }

  function Put(s: State, name: string, bytes: string): State {
    s.(disk := s.disk.(root := s.disk.root[name := bytes]),
       history := s.history.(arrived := s.history.arrived[name := bytes]))
  }

  function Started(env: Env, s: State, n: string): State {
    s.(pc := if env.maxRetries == 0 then Archiving(n) else Publishing(n, 1))
  }

  function Acknowledged(env: Env, s: State, n: string): State
    requires n in s.disk.root && Inspect(env, s.disk.root[n]).Event?
  {
    s.(log := s.log + [MessageOf(env, s.disk.root[n])], pc := Archiving(n),
       history := s.history.(acks := s.history.acks[n := Count(s.history.acks, n) + 1]))
  }

  function Failed(env: Env, s: State, n: string, attempt: nat, delivered: bool): State
    requires n in s.disk.root && Inspect(env, s.disk.root[n]).Event?
  {
    s.(log := if delivered then s.log + [MessageOf(env, s.disk.root[n])] else s.log,
       pc := if attempt < env.maxRetries then Publishing(n, attempt + 1) else Rejecting(n))
  }

  function Archived(s: State, n: string): State
    requires n in s.disk.root
  {
    s.(disk := s.disk.(root := s.disk.root - {n}, published := s.disk.published[n := s.disk.root[n]]), pc := Idle)
  }

  function Rejected(s: State, n: string): State
    requires n in s.disk.root
  {
    s.(disk := s.disk.(root := s.disk.root - {n}, rejected := s.disk.rejected[n := s.disk.root[n]]),
       pc := Annotating(n))
  }

  function Annotated(s: State, n: string): State {
    s.(disk := s.disk.(sidecars := s.disk.sidecars + {n + ".error"}), pc := Idle)
  }

  function CutOff(s: State): State {
    if s.pc.Archiving? then
      var cutoffs := s.history.cutoffs[s.pc.name := Count(s.history.cutoffs, s.pc.name) + 1];
      s.(pc := Idle, history := s.history.(cutoffs := cutoffs))
    else s.(pc := Idle)
  }

  function Next(env: Env, s: State, l: Label): State
    requires Enabled(env, s, l)
  {
    match l
    case Arrive(name, bytes) => Put(s, name, bytes)
    case Pick(name) => Picked(env, s, name)
    case Start => Started(env, s, s.pc.name)
    case StartFails => s.(pc := Idle)
    case SendAcked => Acknowledged(env, s, s.pc.name)
    case SendFails(delivered) => Failed(env, s, s.pc.name, s.pc.attempt, delivered)
    case StopFails => CutOff(s)
    case Archive => Archived(s, s.pc.name)
    case Reject => Rejected(s, s.pc.name)
    case Annotate => Annotated(s, s.pc.name)
    case Crash => CutOff(s)
  }

  /** `labels` is a run of the machine from `s` to `s'`. */
  ghost predicate Run(env: Env, s: State, labels: seq<Label>, s': State)
    decreases |labels|
  {
    if labels == [] then s' == s
    else Enabled(env, s, labels[0]) && Run(env, Next(env, s, labels[0]), labels[1..], s')
  }

  /** Every arriving file has a name never used before. */
  ghost predicate FreshNames(env: Env, s: State, labels: seq<Label>)
    decreases |labels|
  {
    labels == [] ||
    (Enabled(env, s, labels[0])
     && (labels[0].Arrive? ==> labels[0].name !in s.history.arrived)
     && FreshNames(env, Next(env, s, labels[0]), labels[1..]))
  }

  const EMPTY := State(Disk(map[], map[], map[], {}), [], Idle, History(map[], map[], map[]))

  // ---------- What holds in every reachable state ----------

  /** The file being worked on. */
  predicate PcInPlace(env: Env, s: State) {
    match s.pc
    case Idle => true
    case Starting(n) => n in s.disk.root && Inspect(env, s.disk.root[n]).Event?
    case Publishing(n, attempt) =>
      n in s.disk.root && Inspect(env, s.disk.root[n]).Event? && 1 <= attempt <= env.maxRetries
    case Archiving(n) => n in s.disk.root && Inspect(env, s.disk.root[n]).Event?
    case Rejecting(n) => n in s.disk.root
    case Annotating(n) => n in s.disk.rejected
  }

  /** A file that ever arrived is in exactly one directory, unaltered; any other name is in none. */
  predicate Placed(s: State, n: string) {
    if n !in s.history.arrived then n !in s.disk.root && n !in s.disk.published && n !in s.disk.rejected
    else if n in s.disk.root then
      s.disk.root[n] == s.history.arrived[n] && n !in s.disk.published && n !in s.disk.rejected
    else if n in s.disk.published then s.disk.published[n] == s.history.arrived[n] && n !in s.disk.rejected
    else n in s.disk.rejected && s.disk.rejected[n] == s.history.arrived[n]
  }

  /** Acknowledged sends: one for each interruption after an acknowledgement, and one more once archived. */
  predicate Accounted(s: State, n: string) {
    Count(s.history.acks, n)
    == Count(s.history.cutoffs, n) + if n in s.disk.published || s.pc == Archiving(n) then 1 else 0
  }

  /** The message is that of a file that arrived. */
  ghost predicate FromArrival(env: Env, s: State, m: Message) {
    exists n :: n in s.history.arrived && Inspect(env, s.history.arrived[n]).Event?
                && m == MessageOf(env, s.history.arrived[n])
  }

  /** Only events are sent or archived, and only files that arrived. */
  ghost predicate OnlyEvents(env: Env, s: State) {
    && (forall n | n in s.disk.published :: Inspect(env, s.disk.published[n]).Event?)
    && (forall i | 0 <= i < |s.log| :: FromArrival(env, s, s.log[i]))
  }

  ghost predicate Inv(env: Env, s: State) {
    && PcInPlace(env, s)
    && (forall n :: Placed(s, n))
    && (env.maxRetries >= 1 ==> forall n :: Accounted(s, n))
    && OnlyEvents(env, s)
  }

  lemma MovesKeepPlaces(s: State, n: string, m: string)
    requires n in s.disk.root && Placed(s, n) && Placed(s, m)
    ensures Placed(Archived(s, n), m) && Placed(Rejected(s, n), m)
  {
  }

  /** Everything but the two renames and an arrival leaves the directories alone. */
  lemma OthersMoveNothing(env: Env, s: State, l: Label)
    requires Enabled(env, s, l) && !l.Arrive? && !l.Archive? && !l.Reject?
    ensures var s' := Next(env, s, l);
            && s'.disk.(sidecars := s.disk.sidecars) == s.disk
            && s'.history.arrived == s.history.arrived
  {
    hide Inspect, MessageOf;
  }

  lemma StepKeepsPlaces(env: Env, s: State, l: Label, m: string)
    requires (forall n :: Placed(s, n)) && Enabled(env, s, l)
    requires l.Arrive? ==> l.name !in s.history.arrived
    ensures Placed(Next(env, s, l), m)
  {
    hide Inspect, MessageOf, Archived, Rejected, Picked, Acknowledged, Failed, CutOff;
    assert Placed(s, m);
    if l.Archive? || l.Reject? {
      assert Placed(s, s.pc.name);
      MovesKeepPlaces(s, s.pc.name, m);
    } else if !l.Arrive? {
      OthersMoveNothing(env, s, l);
    }
  }

  lemma StepKeepsPc(env: Env, s: State, l: Label)
    requires PcInPlace(env, s) && Enabled(env, s, l)
    requires forall n :: Placed(s, n)
    requires l.Arrive? ==> l.name !in s.history.arrived
    ensures PcInPlace(env, Next(env, s, l))
  {
    hide Inspect, MessageOf, Accounted;
    if !s.pc.Idle? { assert Placed(s, s.pc.name); }
    match l case Arrive(_, _) => case Pick(_) => case Start => case SendFails(_) => case _ =>
  }

  lemma QuietSteps(env: Env, s: State, l: Label, n: string)
    requires Enabled(env, s, l) && !l.SendAcked? && !l.Archive? && !l.Crash? && !l.StopFails? && env.maxRetries >= 1
    ensures var s' := Next(env, s, l);
            && s'.history.acks == s.history.acks && s'.history.cutoffs == s.history.cutoffs
            && s'.disk.published == s.disk.published
            && (s'.pc == Archiving(n) <==> s.pc == Archiving(n))
  {
    hide Inspect, MessageOf;
  }

  lemma AckAccounted(env: Env, s: State, name: string, n: string)
    requires name in s.disk.root && Inspect(env, s.disk.root[name]).Event? && Placed(s, name)
    requires s.pc.Publishing? && s.pc.name == name && Accounted(s, n)
    ensures Accounted(Acknowledged(env, s, name), n)
  {
    hide Inspect, MessageOf;
  }

  lemma StepKeepsAccounts(env: Env, s: State, l: Label, n: string)
    requires PcInPlace(env, s) && (forall m :: Placed(s, m)) && Accounted(s, n)
    requires Enabled(env, s, l) && env.maxRetries >= 1
    ensures Accounted(Next(env, s, l), n)
  {
    hide Inspect, MessageOf, Picked, Failed, Acknowledged;
    if l.SendAcked? || s.pc.Archiving? { assert Placed(s, s.pc.name); }
    if l.SendAcked? {
      AckAccounted(env, s, s.pc.name, n);
    } else if !l.Archive? && !l.Crash? && !l.StopFails? {
      QuietSteps(env, s, l, n);
    }
  }

  /** Files keep their bytes in the record of arrivals. */
  lemma ArrivalsStay(env: Env, s: State, l: Label, m: Message)
    requires Enabled(env, s, l) && FromArrival(env, s, m)
    requires l.Arrive? ==> l.name !in s.history.arrived
    ensures FromArrival(env, Next(env, s, l), m)
  {
    hide Inspect, MessageOf;
    var n :| n in s.history.arrived && Inspect(env, s.history.arrived[n]).Event?
             && m == MessageOf(env, s.history.arrived[n]);
    assert n in Next(env, s, l).history.arrived && Next(env, s, l).history.arrived[n] == s.history.arrived[n];
  }

  lemma SentNow(env: Env, s: State, l: Label)
    requires Enabled(env, s, l) && l in {SendAcked, SendFails(true)} && Placed(s, s.pc.name)
    ensures FromArrival(env, Next(env, s, l), MessageOf(env, s.disk.root[s.pc.name]))
  {
    hide Inspect, MessageOf;
    var n := s.pc.name;
    assert n in Next(env, s, l).history.arrived && Next(env, s, l).history.arrived[n] == s.disk.root[n];
  }

  lemma StepKeepsLog(env: Env, s: State, l: Label)
    requires Enabled(env, s, l) && (forall n :: Placed(s, n))
    requires forall i | 0 <= i < |s.log| :: FromArrival(env, s, s.log[i])
    requires l.Arrive? ==> l.name !in s.history.arrived
    ensures forall i | 0 <= i < |Next(env, s, l).log| :: FromArrival(env, Next(env, s, l), Next(env, s, l).log[i])
  {
    forall i | 0 <= i < |s.log| ensures FromArrival(env, Next(env, s, l), s.log[i]) {
      ArrivalsStay(env, s, l, s.log[i]);
    }
    if l in {SendAcked, SendFails(true)} {
      assert Placed(s, s.pc.name);
      SentNow(env, s, l);
    }
    hide Inspect, MessageOf, FromArrival;
  }

  lemma StepKeepsArchive(env: Env, s: State, l: Label, n: string)
    requires PcInPlace(env, s) && Enabled(env, s, l) && n in Next(env, s, l).disk.published
    requires n in s.disk.published ==> Inspect(env, s.disk.published[n]).Event?
    ensures Inspect(env, Next(env, s, l).disk.published[n]).Event?
  {
    hide Inspect, MessageOf;
    match l case Archive => case _ =>
  }

  /** In every run with fresh names: conservation, the exact send account and event-only archiving. */
  lemma {:induction false} RunKeepsInvariant(env: Env, s: State, labels: seq<Label>, s': State)
    requires Inv(env, s) && Run(env, s, labels, s') && FreshNames(env, s, labels)
    ensures Inv(env, s')
    decreases |labels|
  {
    if labels != [] {
      var l := labels[0];
      hide Next, Inspect, Placed, Accounted, PcInPlace, FromArrival;
      forall n ensures Placed(Next(env, s, l), n) { StepKeepsPlaces(env, s, l, n); }
      StepKeepsPc(env, s, l);
      StepKeepsLog(env, s, l);
      forall n | n in Next(env, s, l).disk.published ensures Inspect(env, Next(env, s, l).disk.published[n]).Event? {
        StepKeepsArchive(env, s, l, n);
      }
      if env.maxRetries >= 1 {
        forall n ensures Accounted(Next(env, s, l), n) { StepKeepsAccounts(env, s, l, n); }
      }
      RunKeepsInvariant(env, Next(env, s, l), labels[1..], s');
    }
  }

  /** From an empty spool: each file that arrived is in exactly one place with its bytes; an archived one is an
      event that was acknowledged, one time more than it was interrupted between acknowledgement and rename. */
  lemma SpoolConservation(env: Env, labels: seq<Label>, s: State, n: string)
    requires env.maxRetries >= 1
    requires Run(env, EMPTY, labels, s) && FreshNames(env, EMPTY, labels)
    ensures n in s.history.arrived <==> n in s.disk.root || n in s.disk.published || n in s.disk.rejected
    ensures !(n in s.disk.root && n in s.disk.published) && !(n in s.disk.root && n in s.disk.rejected)
    ensures !(n in s.disk.published && n in s.disk.rejected)
    ensures n in s.disk.root ==> s.disk.root[n] == s.history.arrived[n]
    ensures n in s.disk.published ==>
              s.disk.published[n] == s.history.arrived[n] && Inspect(env, s.history.arrived[n]).Event?
    ensures n in s.disk.rejected ==> s.disk.rejected[n] == s.history.arrived[n]
    ensures n in s.disk.published ==> Count(s.history.acks, n) == 1 + Count(s.history.cutoffs, n)
    ensures n in s.disk.rejected ==> Count(s.history.acks, n) == Count(s.history.cutoffs, n)
  {
    RunKeepsInvariant(env, EMPTY, labels, s);
    assert Accounted(s, n) && Placed(s, n);
  }

  lemma OneMoreLabel(env: Env, s: State, l: Label, labels: seq<Label>, s': State)
    requires Enabled(env, s, l) && (l.Arrive? ==> l.name !in s.history.arrived)
    requires Run(env, Next(env, s, l), labels, s') && FreshNames(env, Next(env, s, l), labels)
    ensures Run(env, s, [l] + labels, s') && FreshNames(env, s, [l] + labels)
  {
    assert ([l] + labels)[1..] == labels;
  }

  lemma ArchivedUnsent(env: Env, bytes: string) returns (labels: seq<Label>, s: State)
    requires Inspect(env, bytes).Event? && env.maxRetries == 0
    ensures Run(env, EMPTY, labels, s) && FreshNames(env, EMPTY, labels)
    ensures "a.json" in s.disk.published && Count(s.history.acks, "a.json") == 0
  {
    hide Inspect, Run, FreshNames;
    var s0 := Next(env, EMPTY, Arrive("a.json", bytes));
    var s1 := Next(env, s0, Pick("a.json"));
    var s2 := Next(env, s1, Start);
    s := Next(env, s2, Archive);
    NoMoreLabels(env, s);
    OneMoreLabel(env, s2, Archive, [], s);
    OneMoreLabel(env, s1, Start, [Archive] + [], s);
    OneMoreLabel(env, s0, Pick("a.json"), [Start] + ([Archive] + []), s);
    labels := [Arrive("a.json", bytes)] + ([Pick("a.json")] + ([Start] + ([Archive] + [])));
    OneMoreLabel(env, EMPTY, Arrive("a.json", bytes), [Pick("a.json")] + ([Start] + ([Archive] + [])), s);
  }

  lemma NoMoreLabels(env: Env, s: State)
    ensures Run(env, s, [], s) && FreshNames(env, s, [])
  {
  }

  /** A file can be archived without any acknowledged send exactly when no attempt is configured. */
  lemma ArchivedUnsentIffNoRetries(env: Env, bytes: string)
    requires Inspect(env, bytes).Event?
    ensures (exists labels, s, n :: Run(env, EMPTY, labels, s) && FreshNames(env, EMPTY, labels)
                                    && n in s.disk.published && Count(s.history.acks, n) == 0)
       <==> env.maxRetries == 0
  {
    hide Inspect, Run, FreshNames;
    if env.maxRetries == 0 {
      var labels, s := ArchivedUnsent(env, bytes);
    } else {
      forall labels, s, n | Run(env, EMPTY, labels, s) && FreshNames(env, EMPTY, labels) && n in s.disk.published
        ensures Count(s.history.acks, n) != 0
      {
        SpoolConservation(env, labels, s, n);
      }
    }
  }

  // ---------- Valid events, over the decoded fields ----------

  /** What the validator demands of the fields. */
  predicate Acceptable(env: Env, fields: map<string, FieldValue>) {
    && "session_id" in fields && "model_id" in fields
    && "usage_source" in fields
    && fields["usage_source"] in {Null, Text("MEASURED"), Text("ESTIMATED"), Text("UNKNOWN")}
    && "reporting_source" in fields
    && fields["reporting_source"] in {Null, Text("build-loop"), Text("claude-session"), Text("codex"), Text("unknown")}
    && "correlation_id" in fields
    && (match fields["correlation_id"]
        case Null => true
        case LoneSurrogate => false
        case Text(t) => env.isUuid(t)
        case Unhashable(t) => env.isUuid(t))
  }

  /** A list or an object stands where one of the two sources should, so looking it up raises. */
  predicate UnhashableSource(fields: map<string, FieldValue>) {
    exists f | f in fields :: f in {"usage_source", "reporting_source"} && fields[f].Unhashable?
  }

  /** The session and the model can be encoded into the key. */
  predicate Encodable(fields: map<string, FieldValue>) {
    forall f | f in fields :: f in {"session_id", "model_id"} ==> fields[f] != LoneSurrogate
  }

  /** The bytes decode to an event that can be sent. */
  predicate ValidEvent(env: Env, bytes: string) {
    && env.decode(bytes).Object?
    && Acceptable(env, env.decode(bytes).fields) && Encodable(env.decode(bytes).fields)
  }

  /** `t` is how the value is printed into the key text. */
  predicate PrintsAs(v: FieldValue, t: string) {
    v == Text(t) || v == Unhashable(t) || (v == Null && t == "None")
  }

  lemma SourcesAreText(fields: map<string, FieldValue>)
    requires "usage_source" in fields && "reporting_source" in fields
    ensures OneOf(fields, "usage_source", VALID_USAGE_SOURCES)
       <==> fields["usage_source"] in {Null, Text("MEASURED"), Text("ESTIMATED"), Text("UNKNOWN")}
    ensures OneOf(fields, "reporting_source", VALID_REPORTING_SOURCES)
       <==> fields["reporting_source"]
              in {Null, Text("build-loop"), Text("claude-session"), Text("codex"), Text("unknown")}
  {
  }

  lemma RequiredFieldsAre(fields: map<string, FieldValue>)
    ensures (forall f | f in REQUIRED_FIELDS :: f in fields)
       <==> && "session_id" in fields && "model_id" in fields && "reporting_source" in fields
            && "usage_source" in fields && "correlation_id" in fields
  {
    assert "session_id" == REQUIRED_FIELDS[0] && "model_id" == REQUIRED_FIELDS[1]
        && "reporting_source" == REQUIRED_FIELDS[2] && "usage_source" == REQUIRED_FIELDS[3]
        && "correlation_id" == REQUIRED_FIELDS[4];
  }

  lemma InspectExactly(env: Env, bytes: string)
    ensures Inspect(env, bytes).Unparsable? <==> env.decode(bytes).NotJson?
    ensures env.decode(bytes).NotObject? ==> Inspect(env, bytes).Raises?
    ensures forall fields | env.decode(bytes) == Object(fields) ::
              && (Inspect(env, bytes).Invalid? <==> !UnhashableSource(fields) && !Acceptable(env, fields))
              && (Inspect(env, bytes) == Event(fields) <==> ValidEvent(env, bytes))
    ensures Inspect(env, bytes).Event? <==> ValidEvent(env, bytes)
  {
    match env.decode(bytes)
    case Object(fields) =>
      RequiredFieldsAre(fields);
      if "usage_source" in fields && "reporting_source" in fields { SourcesAreText(fields); }
    case _ =>
  }

  /** The record sent holds the file's bytes under the digest of source, session, correlation, model and the digest
      of the bytes. */
  lemma KeyExactly(env: Env, bytes: string, source: string, session: string, correlation: string, model: string)
    requires ValidEvent(env, bytes)
    requires PrintsAs(env.decode(bytes).fields["reporting_source"], source)
    requires PrintsAs(env.decode(bytes).fields["session_id"], session)
    requires PrintsAs(env.decode(bytes).fields["correlation_id"], correlation)
    requires PrintsAs(env.decode(bytes).fields["model_id"], model)
    ensures Inspect(env, bytes).Event?
    ensures MessageOf(env, bytes)
         == Message(env.sha256(source + ":" + session + ":" + correlation + ":" + model + ":" + env.sha256(bytes)),
                    bytes)
  {
    InspectExactly(env, bytes);
    hide Inspect;
    assert KeyText(env, bytes) == source + ":" + session + ":" + correlation + ":" + model + ":" + env.sha256(bytes);
  }

  /** Over every run from an empty spool, whatever is archived or was sent decodes to a valid event, each message is
      the one made from its bytes, and those arrived. */
  lemma OnlyValidEventsLeave(env: Env, labels: seq<Label>, s: State)
    requires Run(env, EMPTY, labels, s) && FreshNames(env, EMPTY, labels)
    ensures forall n | n in s.disk.published :: ValidEvent(env, s.disk.published[n])
    ensures forall m | m in s.log :: ValidEvent(env, m.bytes) && SentFrom(env, s, m)
  {
    RunKeepsInvariant(env, EMPTY, labels, s);
    hide Run, FreshNames, Inspect, MessageOf, FromArrival, ValidEvent;
    forall n | n in s.disk.published ensures ValidEvent(env, s.disk.published[n]) {
      InspectExactly(env, s.disk.published[n]);
    }
    forall m | m in s.log ensures ValidEvent(env, m.bytes) && SentFrom(env, s, m) {
      var i :| 0 <= i < |s.log| && s.log[i] == m;
      ArrivalCarriesBytes(env, s, m);
      InspectExactly(env, m.bytes);
    }
  }

  // ---------- Redelivery ----------

  /** No two different texts among these hash alike, and their digests are 64 hexadecimal characters. */
  predicate NoCollision(env: Env, texts: set<string>) {
    && (forall a, b | a in texts && b in texts && env.sha256(a) == env.sha256(b) :: a == b)
    && (forall a | a in texts :: |env.sha256(a)| == 64)
  }

  /** What is hashed for one file: its bytes, and its key text if it is an event. */
  function HashedFor(env: Env, bytes: string): set<string> {
    if Inspect(env, bytes).Event? then {bytes, KeyText(env, bytes)} else {bytes}
  }

  /** Everything hashed for the files that arrived so far. */
  function HashedTexts(env: Env, s: State): set<string> {
    set n, t | n in s.history.arrived && t in HashedFor(env, s.history.arrived[n]) :: t
  }

  lemma SameTail(p: string, q: string, x: string, y: string)
    requires p + x == q + y && |x| == |y|
    ensures x == y
  {
    assert x == (p + x)[|p + x| - |x|..] && y == (q + y)[|q + y| - |y|..];
  }

  /** Two messages have one key exactly if the files have the same bytes, unless the four texts hashed for them
      collide. */
  lemma KeyDeterminesBytes(env: Env, a: string, b: string)
    requires Inspect(env, a).Event? && Inspect(env, b).Event?
    requires NoCollision(env, {a, b, KeyText(env, a), KeyText(env, b)})
    ensures MessageOf(env, a).key == MessageOf(env, b).key <==> a == b
  {
    hide Inspect;
    var p := KeyTextEndsInDigest(env, a);
    var q := KeyTextEndsInDigest(env, b);
    if MessageOf(env, a).key == MessageOf(env, b).key {
      hide KeyText;
      SameTail(p, q, env.sha256(a), env.sha256(b));
    }
  }

  lemma KeyTextEndsInDigest(env: Env, a: string) returns (p: string)
    requires Inspect(env, a).Event?
    ensures KeyText(env, a) == p + env.sha256(a)
  {
    var fields := Inspect(env, a).fields;
    assert REQUIRED_FIELDS[0] in fields && REQUIRED_FIELDS[1] in fields && REQUIRED_FIELDS[2] in fields
        && REQUIRED_FIELDS[4] in fields;
    p := Str(fields["reporting_source"]) + ":" + Str(fields["session_id"]) + ":" + Str(fields["correlation_id"]) + ":"
         + Str(fields["model_id"]) + ":";
  }

  /** What a consumer applies that drops every key it has seen before. */
  function Applied(log: seq<Message>): seq<Message> {
    if log == [] then []
    else
      var before := Applied(log[..|log| - 1]);
      var m := log[|log| - 1];
      if exists i | 0 <= i < |before| :: before[i].key == m.key then before else before + [m]
  }

  ghost predicate HasKey(messages: seq<Message>, m: Message) {
    exists i | 0 <= i < |messages| :: messages[i].key == m.key
  }

  lemma {:induction false} AppliedKeys(log: seq<Message>)
    ensures forall i, j | 0 <= i < j < |Applied(log)| :: Applied(log)[i].key != Applied(log)[j].key
    ensures forall i | 0 <= i < |Applied(log)| :: Applied(log)[i] in log
    ensures forall m | m in log :: HasKey(Applied(log), m)
    decreases |log|
  {
    if log != [] {
      var before, m := log[..|log| - 1], log[|log| - 1];
      assert log == before + [m];
      AppliedKeys(before);
      AppliedLast(before, m);
    }
  }

  lemma AppliedLast(before: seq<Message>, m: Message)
    ensures Applied(before + [m]) == if HasKey(Applied(before), m) then Applied(before) else Applied(before) + [m]
    ensures HasKey(Applied(before + [m]), m)
    ensures forall q | HasKey(Applied(before), q) :: HasKey(Applied(before + [m]), q)
  {
    assert (before + [m])[..|before|] == before;
    if !HasKey(Applied(before), m) {
      assert (Applied(before) + [m])[|Applied(before)|] == m;
    }
    forall q | HasKey(Applied(before), q) ensures HasKey(Applied(before + [m]), q) {
      var i :| 0 <= i < |Applied(before)| && Applied(before)[i].key == q.key;
      assert Applied(before + [m])[i] == Applied(before)[i];
    }
  }

  /** Over every run, with any crashes, retries and duplicate files, a key-dropping consumer applies each content
      at most once, applies only contents that arrived, and misses no content that was acknowledged - as long as the
      texts hashed in this very run do not collide. */
  lemma RedeliveryIsHarmless(env: Env, labels: seq<Label>, s: State)
    requires Run(env, EMPTY, labels, s) && FreshNames(env, EMPTY, labels)
    requires NoCollision(env, HashedTexts(env, s))
    ensures forall i, j | 0 <= i < j < |Applied(s.log)| :: Applied(s.log)[i].bytes != Applied(s.log)[j].bytes
    ensures forall i | 0 <= i < |Applied(s.log)| :: Arrived(s, Applied(s.log)[i].bytes)
    ensures forall m | m in s.log :: exists i :: 0 <= i < |Applied(s.log)| && Applied(s.log)[i].bytes == m.bytes
  {
    RunKeepsInvariant(env, EMPTY, labels, s);
    hide Inspect, MessageOf, Applied, Run, FreshNames, NoCollision, HashedTexts, FromArrival;
    AppliedKeys(s.log);
    forall m | m in s.log ensures SentFrom(env, s, m) {
      var i :| 0 <= i < |s.log| && s.log[i] == m;
      ArrivalCarriesBytes(env, s, m);
    }
    EachContentOnce(env, s);
  }

  lemma EachContentOnce(env: Env, s: State)
    requires NoCollision(env, HashedTexts(env, s)) && forall m | m in s.log :: SentFrom(env, s, m)
    ensures forall i, j | 0 <= i < j < |Applied(s.log)| :: Applied(s.log)[i].bytes != Applied(s.log)[j].bytes
    ensures forall i | 0 <= i < |Applied(s.log)| :: Arrived(s, Applied(s.log)[i].bytes)
    ensures forall m | m in s.log :: exists i :: 0 <= i < |Applied(s.log)| && Applied(s.log)[i].bytes == m.bytes
  {
    hide Inspect, MessageOf, Applied, NoCollision, HashedTexts;
    var applied := Applied(s.log);
    AppliedKeys(s.log);
    forall i | 0 <= i < |applied| ensures SentFrom(env, s, applied[i]) && Arrived(s, applied[i].bytes) {
      assert applied[i] in s.log;
    }
    forall m | m in s.log ensures exists i :: 0 <= i < |applied| && applied[i].bytes == m.bytes {
      var i :| 0 <= i < |applied| && applied[i].key == m.key;
      SentTextsAreHashed(env, s, applied[i], m);
      KeyDeterminesBytes(env, applied[i].bytes, m.bytes);
    }
  }

  lemma SentTextsAreHashed(env: Env, s: State, m: Message, q: Message)
    requires NoCollision(env, HashedTexts(env, s)) && SentFrom(env, s, m) && SentFrom(env, s, q)
    ensures NoCollision(env, {m.bytes, q.bytes, KeyText(env, m.bytes), KeyText(env, q.bytes)})
  {
    hide Inspect, MessageOf, KeyText;
    var n :| n in s.history.arrived && s.history.arrived[n] == m.bytes;
    var k :| k in s.history.arrived && s.history.arrived[k] == q.bytes;
    assert {m.bytes, q.bytes, KeyText(env, m.bytes), KeyText(env, q.bytes)} <= HashedTexts(env, s) by {
      assert HashedFor(env, m.bytes) == {m.bytes, KeyText(env, m.bytes)};
      assert HashedFor(env, q.bytes) == {q.bytes, KeyText(env, q.bytes)};
    }
  }

  lemma ArrivalCarriesBytes(env: Env, s: State, m: Message)
    requires FromArrival(env, s, m)
    ensures SentFrom(env, s, m)
  {
    var n :| n in s.history.arrived && Inspect(env, s.history.arrived[n]).Event?
             && m == MessageOf(env, s.history.arrived[n]);
    hide Inspect;
    assert m.bytes == s.history.arrived[n];
  }

  /** The message is the one made from its own bytes, and those arrived. */
  ghost predicate SentFrom(env: Env, s: State, m: Message) {
    && Inspect(env, m.bytes).Event? && m == MessageOf(env, m.bytes)
    && Arrived(s, m.bytes)
  }

  /** Some file with exactly these bytes was put into the spool. */
  ghost predicate Arrived(s: State, bytes: string) {
    exists n :: n in s.history.arrived && s.history.arrived[n] == bytes
  }

  function ToyDigest(text: string): string {
    var c := if text == "1" then 'x' else if text == "2" then 'y'
             else if text != "" && text[|text| - 1] == 'x' then 'a' else 'b';
    seq(64, i => c)
  }

  lemma ToyDigests(p: string)
    ensures |ToyDigest("1")| == |ToyDigest("2")| == 64
    ensures |ToyDigest(p + ToyDigest("1"))| == |ToyDigest(p + ToyDigest("2"))| == 64
    ensures ToyDigest("1")[0] == 'x' && ToyDigest("2")[0] == 'y'
    ensures ToyDigest(p + ToyDigest("1"))[0] == 'a' && ToyDigest(p + ToyDigest("2"))[0] == 'b'
  {
    assert (p + ToyDigest("1"))[|p + ToyDigest("1")| - 1] == ToyDigest("1")[63];
    assert (p + ToyDigest("2"))[|p + ToyDigest("2")| - 1] == ToyDigest("2")[63];
  }

  function ToyEnv(): Env {
    Env(ToyDigest,
        b => Object(map["session_id" := Text("s"), "model_id" := Text("m"), "reporting_source" := Text("codex"),
                        "usage_source" := Text("MEASURED"), "correlation_id" := Null]),
        u => true, 3)
  }

  lemma ToyEvents(bytes: string)
    ensures Inspect(ToyEnv(), bytes).Event?
  {
  }

  lemma ToyRun(env: Env, s: State)
    requires s == Put(Put(EMPTY, "1.json", "1"), "2.json", "2")
    ensures Run(env, EMPTY, [Arrive("1.json", "1"), Arrive("2.json", "2")], s)
    ensures s.history.arrived == map["1.json" := "1", "2.json" := "2"]
  {
    hide Inspect, MessageOf;
    var labels := [Arrive("1.json", "1"), Arrive("2.json", "2")];
    assert labels[1..] == [labels[1]] && labels[1..][1..] == [];
  }

  /** The assumption can be met: a hash, and a spool of two different events. */
  lemma NoCollisionIsPossible()
    ensures exists env, s ::
              && Run(env, EMPTY, [Arrive("1.json", "1"), Arrive("2.json", "2")], s)
              && Inspect(env, "1").Event? && Inspect(env, "2").Event?
              && NoCollision(env, HashedTexts(env, s))
  {
    var env, s := ToyEnv(), Put(Put(EMPTY, "1.json", "1"), "2.json", "2");
    hide Inspect, Run, ToyDigest, ToyEnv, KeyText, Put;
    assert env.sha256 == ToyDigest by { ToyHash(); }
    ToyEvents("1");
    ToyEvents("2");
    ToyRun(env, s);
    var p := KeyTextEndsInDigest(env, "1");
    var q := KeyTextEndsInDigest(env, "2");
    ToyDigests(p);
    ToyDigests(q);
    assert HashedFor(env, "1") == {"1", KeyText(env, "1")} && HashedFor(env, "2") == {"2", KeyText(env, "2")};
    assert forall n | n in s.history.arrived :: s.history.arrived[n] in {"1", "2"};
    assert forall t | t in HashedTexts(env, s) :: t in {"1", "2", KeyText(env, "1"), KeyText(env, "2")};
  }

  lemma ToyHash()
    ensures ToyEnv().sha256 == ToyDigest
  {
  }
}
