/** The publisher itself: one file, and one polling pass, carried out as steps of the spool machine. */
module SpoolDaemon {
  import opened Options
  import opened Spool
  import opened SortedKeys

  /** The broker's answer to one send; a lost one may have been stored all the same. */
  datatype SendAnswer = Acked | Lost(delivered: bool)

  /** What the broker will do while one file is processed: whether the producer starts and stops without an exception,
      and how sends are answered. */
  datatype Broker = Broker(starts: bool, answers: seq<SendAnswer>, stops: bool)

  datatype Outcome = Published | Quarantined | Raised

  /** One of the first `n` attempts is acknowledged. */
  predicate AckedWithin(answers: seq<SendAnswer>, n: nat) {
    exists i | 0 <= i < |answers| :: i < n && answers[i].Acked?
  }

  /** How processing a file must end. */
  function Ending(env: Env, bytes: string, broker: Broker): Outcome {
    match Inspect(env, bytes)
    case Unparsable => Quarantined
    case Invalid => Quarantined
    case Raises => Raised
    case Event(_) =>
      if !broker.starts || !broker.stops then Raised
      else if env.maxRetries == 0 || AckedWithin(broker.answers, env.maxRetries) then Published
      else Quarantined
  }

  /** Quarantined: no JSON, or an object the validator refuses without raising, or a valid event all of whose sends
      were lost. Published: a valid event with an acknowledged send, or with no attempt configured. Otherwise it raises:
      not an object, an unhashable source, a text without encoding, or a producer that does not start or stop. */
  lemma EndingExactly(env: Env, bytes: string, broker: Broker)
    ensures env.decode(bytes).NotJson? ==> Ending(env, bytes, broker) == Quarantined
    ensures env.decode(bytes).NotObject? ==> Ending(env, bytes, broker) == Raised
    ensures forall fields | env.decode(bytes) == Object(fields) ::
              && (!Acceptable(env, fields) ==>
                    Ending(env, bytes, broker) == if UnhashableSource(fields) then Raised else Quarantined)
              && (Acceptable(env, fields) && (!Encodable(fields) || !broker.starts || !broker.stops) ==>
                    Ending(env, bytes, broker) == Raised)
    ensures ValidEvent(env, bytes) && broker.starts && broker.stops ==>
              Ending(env, bytes, broker)
              == if env.maxRetries > 0 && (forall i | 0 <= i < |broker.answers| && i < env.maxRetries ::
                                             broker.answers[i].Lost?)
                 then Quarantined else Published
  {
    InspectExactly(env, bytes);
    hide Inspect;
  }

  /** Only the daemon's own steps: nothing arrives and nothing is cut off. */
  predicate Undisturbed(l: Label) { !l.Arrive? && !l.Crash? }

  /** `t` comes after `s` by undisturbed steps of the machine. */
  ghost predicate Follows(env: Env, s: State, t: State) {
    exists labels :: Run(env, s, labels, t) && forall i | 0 <= i < |labels| :: Undisturbed(labels[i])
  }

  lemma FollowsItself(env: Env, s: State)
    ensures Follows(env, s, s)
  {
    assert Run(env, s, [], s);
  }

  lemma {:induction false} RunSnoc(env: Env, s: State, labels: seq<Label>, t: State, l: Label)
    requires Run(env, s, labels, t) && Enabled(env, t, l)
    ensures Run(env, s, labels + [l], Next(env, t, l))
    decreases |labels|
  {
    if labels == [] {
      assert [l][1..] == [];
    } else {
      RunSnoc(env, Next(env, s, labels[0]), labels[1..], t, l);
      assert (labels + [l])[1..] == labels[1..] + [l];
    }
  }

  lemma FollowsStep(env: Env, s: State, t: State, l: Label)
    requires Follows(env, s, t) && Enabled(env, t, l) && Undisturbed(l)
    ensures Follows(env, s, Next(env, t, l))
  {
    hide Run, Enabled, Next, Undisturbed;
    var labels :| Run(env, s, labels, t) && forall i | 0 <= i < |labels| :: Undisturbed(labels[i]);
    RunSnoc(env, s, labels, t, l);
    assert Run(env, s, labels + [l], Next(env, t, l));
  }

  /** Names process_file is called on: a stem and the suffix .json. */
  predicate IsEventFile(name: string) {
    |name| > 5 && name[|name| - 5..] == ".json"
  }

  /** Unless processing raised, the file went to the directory that the outcome says, and no other file moved. */
  predicate Handled(before: Disk, after: Disk, name: string, outcome: Outcome)
    requires name in before.root
  {
    && after.root == (if outcome == Raised then before.root else before.root - {name})
    && after.published == (if outcome == Published then before.published[name := before.root[name]]
                           else before.published)
    && after.rejected == (if outcome == Quarantined then before.rejected[name := before.root[name]]
                          else before.rejected)
  }

  class CostEventPublisher {
    const env: Env
    var root: Dir
    var published: Dir
    var rejected: Dir
    var sidecars: set<string>
    var log: seq<Message>
    ghost var machine: State

    ghost predicate Valid()
      reads this
    {
      && machine.disk == Disk(root, published, rejected, sidecars)
      && machine.log == log
      && machine.pc == Idle
    }

    /** A publisher takes over the directories as an earlier one, stopped anywhere in state `past`, left them. */
    constructor (env: Env, disk: Disk, log: seq<Message>, ghost past: State)
      requires past.disk == disk && past.log == log
      ensures Valid() && this.env == env && Disk(root, published, rejected, sidecars) == disk && this.log == log
      ensures Enabled(env, past, Crash) && machine == Next(env, past, Crash)
      ensures Inv(env, past) ==> Inv(env, machine)
    {
      this.env := env;
      root, published, rejected, sidecars := disk.root, disk.published, disk.rejected, disk.sidecars;
      this.log := log;
      machine := CutOff(past);
      new;
      if Inv(env, past) { CrashKeepsInvariant(env, past); }
    }

    /** `_quarantine`: move to rejected/, then write the reason beside it. */
    method Quarantine(name: string)
      requires machine.disk == Disk(root, published, rejected, sidecars) && machine.log == log
      requires machine.pc == Rejecting(name) && name in root
      modifies this
      ensures Valid() && Follows(env, old(machine), machine)
      ensures root == old(root) - {name} && rejected == old(rejected)[name := old(root)[name]]
      ensures sidecars == old(sidecars) + {name + ".error"}
      ensures published == old(published) && log == old(log)
    {
      hide Follows, Inspect, MessageOf;
      FollowsItself(env, machine);
      FollowsStep(env, old(machine), machine, Reject);
      root, rejected := root - {name}, rejected[name := root[name]];
      machine := Next(env, machine, Reject);
      FollowsStep(env, old(machine), machine, Annotate);
      sidecars := sidecars + {name + ".error"};
      machine := Next(env, machine, Annotate);
    }

    /** The retry loop: at most `maxRetries` sends, until one is acknowledged. */
    method SendWithRetry(name: string, answers: seq<SendAnswer>) returns (ok: bool)
      requires Valid() && name in root && Inspect(env, root[name]).Event? && |answers| >= env.maxRetries
      modifies this`log, this`machine
      ensures machine.disk == Disk(root, published, rejected, sidecars) && machine.log == log
      ensures Follows(env, old(machine), machine)
      ensures ok <==> env.maxRetries == 0 || AckedWithin(answers, env.maxRetries)
      ensures machine.pc == if ok then Archiving(name) else Rejecting(name)
    {
      hide Follows, Inspect, MessageOf;
      ghost var start := machine;
      FollowsItself(env, machine);
      FollowsStep(env, start, machine, Pick(name));
      machine := Next(env, machine, Pick(name));
      FollowsStep(env, start, machine, Start);
      machine := Next(env, machine, Start);
      ok := true;
      var attempt := 1;
      while attempt <= env.maxRetries
        invariant 1 <= attempt <= env.maxRetries + 1
        invariant machine.disk == Disk(root, published, rejected, sidecars) && machine.log == log
        invariant Follows(env, start, machine)
        invariant forall i | 0 <= i < attempt - 1 :: !answers[i].Acked?
        invariant ok <==> attempt == 1
        invariant machine.pc == if attempt <= env.maxRetries then Publishing(name, attempt)
                                else if ok then Archiving(name) else Rejecting(name)
      {
        if answers[attempt - 1].Acked? {
          FollowsStep(env, start, machine, SendAcked);
          log := log + [MessageOf(env, root[name])];
          machine := Next(env, machine, SendAcked);
          return true;
        }
        FollowsStep(env, start, machine, SendFails(answers[attempt - 1].delivered));
        if answers[attempt - 1].delivered {
          log := log + [MessageOf(env, root[name])];
        }
        machine := Next(env, machine, SendFails(answers[attempt - 1].delivered));
        ok := false;
        attempt := attempt + 1;
      }
    }

    method ProcessFile(name: string, broker: Broker) returns (outcome: Outcome)
      requires Valid() && name in root && |broker.answers| >= env.maxRetries
      modifies this
      ensures Valid() && Follows(env, old(machine), machine)
      ensures outcome == Ending(env, old(root)[name], broker)
      ensures Handled(old(machine.disk), machine.disk, name, outcome)
    {
      hide Follows, Inspect, MessageOf;
      FollowsItself(env, machine);
      match Inspect(env, root[name])
      case Raises =>
        outcome := Raised;
      case Event(_) =>
        if !broker.starts {
          FollowsStep(env, old(machine), machine, Pick(name));
          machine := Next(env, machine, Pick(name));
          FollowsStep(env, old(machine), machine, StartFails);
          machine := Next(env, machine, StartFails);
          return Raised;
        }
        var ok := SendWithRetry(name, broker.answers);
        ghost var sent := machine;
        if !broker.stops {
          FollowsStep(env, old(machine), machine, StopFails);
          machine := Next(env, machine, StopFails);
          return Raised;
        }
        if ok {
          FollowsStep(env, old(machine), machine, Archive);
          root, published := root - {name}, published[name := root[name]];
          machine := Next(env, machine, Archive);
          outcome := Published;
        } else {
          Quarantine(name);
          FollowsTransitive(env, old(machine), sent, machine);
          outcome := Quarantined;
        }
      case _ =>
        FollowsStep(env, old(machine), machine, Pick(name));
        machine := Next(env, machine, Pick(name));
        ghost var picked := machine;
        Quarantine(name);
        FollowsTransitive(env, old(machine), picked, machine);
        outcome := Quarantined;
    }

    /** One pass over the spool, in file name order. `None` stands for an exception out of the pass. */
    method PollOnce(broker: string -> Broker) returns (count: Option<nat>)
      requires Valid() && forall n :: |broker(n).answers| >= env.maxRetries
      modifies this
      ensures Valid() && Follows(env, old(machine), machine)
      ensures count.None? <==> exists n :: Blocks(env, old(root), broker, n)
      ensures count.Some? ==> root == old(root) - EventFiles(old(root)) && count.value == |EventFiles(old(root))|
      ensures count.None? ==>
                exists n :: FirstBlocking(env, old(root), broker, n) && root == old(root) - Before(old(root), n)
      ensures MovedBy(env, old(machine.disk), machine.disk, broker)
    {
      hide Follows, Ending, Handled, Sorted, Progress, MovedBy, FirstBlocking, Blocks, Before, EventFiles, EndingIn,
           Inspect, Run;
      var files := Sorted(EventFiles(root));
      ghost var before := machine.disk;
      ProgressStart(env, before, broker, files);
      FollowsItself(env, machine);
      var done := 0;
      while done < |files|
        invariant done <= |files|
        invariant Valid() && Follows(env, old(machine), machine)
        invariant Progress(env, before, machine.disk, broker, files, done)
      {
        var name := files[done];
        ghost var last := machine;
        NextFileIsThere(env, before, machine.disk, broker, files, done);
        var outcome := ProcessFile(name, broker(name));
        FollowsTransitive(env, old(machine), last, machine);
        if outcome == Raised {
          PassBlocked(env, before, last.disk, machine.disk, broker, files, done);
          return None;
        }
        ProgressStep(env, before, last.disk, machine.disk, broker, files, done, outcome);
        done := done + 1;
      }
      PassDone(env, before, machine.disk, broker, files);
      return Some(done);
    }
  }

  lemma {:induction false} FollowsTransitive(env: Env, s: State, t: State, u: State)
    requires Follows(env, s, t) && Follows(env, t, u)
    ensures Follows(env, s, u)
  {
    hide Run, Undisturbed;
    var a :| Run(env, s, a, t) && forall i | 0 <= i < |a| :: Undisturbed(a[i]);
    var b :| Run(env, t, b, u) && forall i | 0 <= i < |b| :: Undisturbed(b[i]);
    RunAppend(env, s, a, t, b, u);
    assert forall i | 0 <= i < |a + b| :: Undisturbed((a + b)[i]);
  }

  lemma {:induction false} RunAppend(env: Env, s: State, a: seq<Label>, t: State, b: seq<Label>, u: State)
    requires Run(env, s, a, t) && Run(env, t, b, u)
    ensures Run(env, s, a + b, u)
    decreases |a|
  {
    if a == [] {
      assert a + b == b;
    } else {
      RunAppend(env, Next(env, s, a[0]), a[1..], t, b, u);
      assert (a + b)[1..] == a[1..] + b;
    }
  }

  // ---------- One pass ----------

  function EventFiles(root: Dir): set<string> {
    set n | n in root && IsEventFile(n)
  }

  /** They are the names made of a non-empty stem and the suffix. */
  lemma EventFilesExactly(root: Dir, n: string)
    ensures n in EventFiles(root) <==> n in root && exists stem :: stem != "" && n == stem + ".json"
  {
    if n in EventFiles(root) { assert n == n[..|n| - 5] + ".json"; }
    if stem :| stem != "" && n == stem + ".json" { assert n[|n| - 5..] == ".json"; }
  }

  /** Processing this file raises, so the pass ends there. */
  predicate Blocks(env: Env, root: Dir, broker: string -> Broker, n: string) {
    n in root && IsEventFile(n) && Ending(env, root[n], broker(n)) == Raised
  }

  /** The first file in name order that raises. */
  ghost predicate FirstBlocking(env: Env, root: Dir, broker: string -> Broker, n: string) {
    Blocks(env, root, broker, n) && forall m | m in Before(root, n) :: !Blocks(env, root, broker, m)
  }

  /** The files among `names` that end in this way, with their bytes. */
  function EndingIn(outcome: Outcome, env: Env, root: Dir, broker: string -> Broker, names: set<string>): Dir {
    map n | n in names && n in root && Ending(env, root[n], broker(n)) == outcome :: root[n]
  }

  lemma OneMoreEnding(outcome: Outcome, env: Env, root: Dir, broker: string -> Broker, names: set<string>, n: string)
    requires n in root
    ensures EndingIn(outcome, env, root, broker, names + {n})
         == if Ending(env, root[n], broker(n)) == outcome then EndingIn(outcome, env, root, broker, names)[n := root[n]]
            else EndingIn(outcome, env, root, broker, names)
  {
    hide Ending;
  }

  /** The event files that come before `n` in name order. */
  function Before(root: Dir, n: string): set<string> {
    set m | m in root && IsEventFile(m) && StrLe(m, n) && m != n
  }

  function Taken(files: seq<string>, done: nat): set<string>
    requires done <= |files|
  {
    set i | 0 <= i < done :: files[i]
  }

  lemma NoneTaken(files: seq<string>)
    ensures Taken(files, 0) == {}
  {
  }

  lemma OneMoreTaken(files: seq<string>, done: nat)
    requires done < |files|
    ensures Taken(files, done + 1) == Taken(files, done) + {files[done]}
  {
  }

  lemma FileStillThere(root: Dir, files: seq<string>, done: nat)
    requires files == Sorted(EventFiles(root)) && done < |files|
    ensures files[done] in root && IsEventFile(files[done]) && files[done] !in Taken(files, done)
  {
    assert files[done] in files;
    forall i | 0 <= i < done ensures files[i] != files[done] { SortedAscending(EventFiles(root), i, done); }
  }

  lemma TakenIsBefore(root: Dir, files: seq<string>, done: nat)
    requires files == Sorted(EventFiles(root)) && done < |files|
    ensures Taken(files, done) == Before(root, files[done])
  {
    forall i | 0 <= i < |files| && i != done
      ensures files[i] in EventFiles(root)
      ensures i < done <==> StrLe(files[i], files[done]) && files[i] != files[done]
    {
      assert files[i] in files;
      if i < done {
        SortedAscending(EventFiles(root), i, done);
      } else {
        SortedAscending(EventFiles(root), done, i);
        if StrLe(files[i], files[done]) { StrLeAntisymmetric(files[i], files[done]); }
      }
    }
    forall m | m in Before(root, files[done]) ensures m in Taken(files, done) {
      assert m in files;
      var i :| 0 <= i < |files| && files[i] == m;
    }
  }

  lemma FirstOneBlocks(env: Env, root: Dir, broker: string -> Broker, files: seq<string>, done: nat)
    requires files == Sorted(EventFiles(root)) && done < |files|
    requires Blocks(env, root, broker, files[done])
    requires forall i | 0 <= i < done :: !Blocks(env, root, broker, files[i])
    ensures FirstBlocking(env, root, broker, files[done])
  {
    hide Blocks;
    TakenIsBefore(root, files, done);
  }

  lemma WhatIsGone(root: Dir, files: seq<string>, done: nat)
    requires files == Sorted(EventFiles(root)) && done <= |files|
    ensures root.Keys - (root - Taken(files, done)).Keys == Taken(files, done)
  {
    forall i | 0 <= i < done ensures files[i] in root { assert files[i] in files; }
  }

  /** A pass after its first `done` files. */
  ghost predicate Progress(env: Env, before: Disk, now: Disk, broker: string -> Broker, files: seq<string>, done: nat) {
    && files == Sorted(EventFiles(before.root)) && done <= |files|
    && now.root == before.root - Taken(files, done)
    && now.published == before.published + EndingIn(Published, env, before.root, broker, Taken(files, done))
    && now.rejected == before.rejected + EndingIn(Quarantined, env, before.root, broker, Taken(files, done))
    && forall i | 0 <= i < done :: !Blocks(env, before.root, broker, files[i])
  }

  lemma ProgressStart(env: Env, before: Disk, broker: string -> Broker, files: seq<string>)
    requires files == Sorted(EventFiles(before.root))
    ensures Progress(env, before, before, broker, files, 0)
  {
    hide Sorted, EventFiles, Ending;
    NoneTaken(files);
  }

  lemma NextFileIsThere(env: Env, before: Disk, now: Disk, broker: string -> Broker, files: seq<string>, done: nat)
    requires Progress(env, before, now, broker, files, done) && done < |files|
    ensures files[done] in now.root && files[done] in before.root && now.root[files[done]] == before.root[files[done]]
  {
    hide EndingIn, Blocks;
    FileStillThere(before.root, files, done);
  }

  lemma MoreEntries(root: Dir, taken: set<string>, kept: Dir, more: Dir, n: string, bytes: string)
    ensures root - taken - {n} == root - (taken + {n})
    ensures (kept + more)[n := bytes] == kept + more[n := bytes]
  {
  }

  lemma ProgressStep(env: Env, before: Disk, now: Disk, next: Disk, broker: string -> Broker, files: seq<string>,
                     done: nat, outcome: Outcome)
    requires Progress(env, before, now, broker, files, done) && done < |files|
    requires files[done] in now.root && outcome == Ending(env, now.root[files[done]], broker(files[done]))
    requires outcome != Raised && Handled(now, next, files[done], outcome)
    ensures Progress(env, before, next, broker, files, done + 1)
  {
    NextFileIsThere(env, before, now, broker, files, done);
    hide Sorted, EventFiles, Ending, EndingIn, Taken, IsEventFile;
    var n, taken, root := files[done], Taken(files, done), before.root;
    OneMoreTaken(files, done);
    OneMoreEnding(Published, env, root, broker, taken, n);
    OneMoreEnding(Quarantined, env, root, broker, taken, n);
    MoreEntries(root, taken, before.published, EndingIn(Published, env, root, broker, taken), n, root[n]);
    MoreEntries(root, taken, before.rejected, EndingIn(Quarantined, env, root, broker, taken), n, root[n]);
  }

  lemma PassBlocked(env: Env, before: Disk, last: Disk, now: Disk, broker: string -> Broker, files: seq<string>,
                    done: nat)
    requires Progress(env, before, last, broker, files, done) && done < |files|
    requires files[done] in last.root && Ending(env, last.root[files[done]], broker(files[done])) == Raised
    requires Handled(last, now, files[done], Raised)
    ensures Blocks(env, before.root, broker, files[done]) && FirstBlocking(env, before.root, broker, files[done])
    ensures now.root == before.root - Before(before.root, files[done])
    ensures MovedBy(env, before, now, broker)
  {
    hide Sorted, Ending, EndingIn;
    FileStillThere(before.root, files, done);
    FirstOneBlocks(env, before.root, broker, files, done);
    TakenIsBefore(before.root, files, done);
    WhatIsGone(before.root, files, done);
  }

  lemma PassDone(env: Env, before: Disk, now: Disk, broker: string -> Broker, files: seq<string>)
    requires Progress(env, before, now, broker, files, |files|)
    ensures forall n :: !Blocks(env, before.root, broker, n)
    ensures now.root == before.root - EventFiles(before.root) && |files| == |EventFiles(before.root)|
    ensures MovedBy(env, before, now, broker)
  {
    hide Ending, EndingIn;
    AllTaken(before.root, files);
    WhatIsGone(before.root, files, |files|);
    NoneBlocks(env, before.root, broker, files);
  }

  /** What left the root went to the directory that its ending says. */
  predicate MovedBy(env: Env, before: Disk, now: Disk, broker: string -> Broker) {
    var gone := before.root.Keys - now.root.Keys;
    && now.published == before.published + EndingIn(Published, env, before.root, broker, gone)
    && now.rejected == before.rejected + EndingIn(Quarantined, env, before.root, broker, gone)
  }

  lemma NoneBlocks(env: Env, root: Dir, broker: string -> Broker, files: seq<string>)
    requires files == Sorted(EventFiles(root))
    requires forall i | 0 <= i < |files| :: !Blocks(env, root, broker, files[i])
    ensures forall n :: !Blocks(env, root, broker, n)
  {
    forall n | n in root && IsEventFile(n) ensures !Blocks(env, root, broker, n) {
      assert n in files;
      var i :| 0 <= i < |files| && files[i] == n;
    }
  }

  lemma AllTaken(root: Dir, files: seq<string>)
    requires files == Sorted(EventFiles(root))
    ensures Taken(files, |files|) == EventFiles(root)
  {
    forall m | m in EventFiles(root) ensures m in Taken(files, |files|) {
      assert m in files;
      var i :| 0 <= i < |files| && files[i] == m;
    }
    forall i | 0 <= i < |files| ensures files[i] in EventFiles(root) { assert files[i] in files; }
  }

  // ---------- The machine's invariant carries over to the daemon ----------

  lemma {:induction false} UndisturbedIsFresh(env: Env, s: State, labels: seq<Label>, t: State)
    requires Run(env, s, labels, t) && forall i | 0 <= i < |labels| :: Undisturbed(labels[i])
    ensures FreshNames(env, s, labels)
    decreases |labels|
  {
    if labels != [] { UndisturbedIsFresh(env, Next(env, s, labels[0]), labels[1..], t); }
  }

  lemma CrashKeepsInvariant(env: Env, s: State)
    requires Inv(env, s)
    ensures Inv(env, CutOff(s))
  {
    assert Enabled(env, s, Crash) && CutOff(s) == Next(env, s, Crash);
    assert Run(env, s, [Crash], CutOff(s)) && FreshNames(env, s, [Crash]) by { assert [Crash][1..] == []; }
    hide Inv;
    RunKeepsInvariant(env, s, [Crash], CutOff(s));
  }

  /** A spool that holds only files not looked at yet satisfies the invariant to start with. */
  lemma FreshSpoolIsSound(env: Env, root: Dir)
    ensures Inv(env, State(Disk(root, map[], map[], {}), [], Idle, History(root, map[], map[])))
  {
  }

  /** Whatever the daemon does undisturbed keeps conservation and the send account. */
  lemma DaemonKeepsInvariant(env: Env, s: State, t: State)
    requires Inv(env, s) && Follows(env, s, t)
    ensures Inv(env, t)
  {
    hide Inv;
    var labels :| Run(env, s, labels, t) && forall i | 0 <= i < |labels| :: Undisturbed(labels[i]);
    UndisturbedIsFresh(env, s, labels, t);
    RunKeepsInvariant(env, s, labels, t);
  }
}
