/**
  The update of an installed agent (scripts/agent-setup.py, `update`): a new package replaces the installed files,
  and any step may raise an exception or be the last one before the script dies. What was written by then is there
  afterwards: a machine that loses writes that were not synced (of `previous` and the marker, for example) is not part
  of this model. What the script reads without changing anything (ownership, manifests, the service's arguments) is one
  yes or no; downloads are given.
 */
module AgentUpdate {

  /** The files of a package, in the order in which they are replaced. */
  datatype Name = AgentBinary | EnrollBinary | ReleaseFile | SetupScript

  const NAMES: seq<Name> := [AgentBinary, EnrollBinary, ReleaseFile, SetupScript]

  /** A file's contents; Torn is a write that did not finish. */
  datatype Data = Whole(text: string) | Torn

  type Files = map<Name, Data>

  /** What happens at a step: nothing special, an exception, or a crash; the latter two after part of its effect. */
  datatype Fault = Fine | Raise(done: nat) | Crash(done: nat)

  /** How a step ends. */
  datatype Flow = Go | Raised | Crashed

  /** How an update ends. Restored is the error that reports a complete and verified return to the old package. */
  datatype End = Passed | Refused | Cancelled | Restored | Failed | Dead

  predicate Total(f: Files) {
    forall n: Name :: n in f
  }

  /** Every file is one of the two packages' file of that name. */
  predicate Mix(f: Files, a: Files, b: Files)
    requires Total(a) && Total(b)
  {
    Total(f) && forall n: Name :: f[n] == a[n] || f[n] == b[n]
  }

  lemma AllNames(n: Name)
    ensures n in NAMES
  {
    match n
    case AgentBinary => assert NAMES[0] == n;
    case EnrollBinary => assert NAMES[1] == n;
    case ReleaseFile => assert NAMES[2] == n;
    case SetupScript => assert NAMES[3] == n;
  }

  /** At most one step raises, and nothing crashes. */
  predicate OneRaise(faults: seq<Fault>) {
    |faults| > 0 ==>
      && (forall i | 0 <= i < |faults| - 1 :: faults[i].Fine?)
      && !faults[|faults| - 1].Crash?
  }

  predicate AllFine(faults: seq<Fault>) {
    forall i | 0 <= i < |faults| :: faults[i].Fine?
  }

  /** The hub accepts the next heartbeat; it accepts all that are not told of. */
  predicate Yes(answers: seq<bool>) {
    |answers| == 0 || answers[0]
  }

  function Rest(answers: seq<bool>): seq<bool> {
    if |answers| == 0 then [] else answers[1..]
  }

  predicate AllYes(answers: seq<bool>) {
    forall i | 0 <= i < |answers| :: answers[i]
  }

  /** At most one heartbeat is turned down. */
  predicate OneNo(answers: seq<bool>) {
    forall i, j | 0 <= i < j < |answers| :: answers[i] || answers[j]
  }

  /** Nothing goes wrong. */
  predicate Calm(faults: seq<Fault>, answers: seq<bool>) {
    AllFine(faults) && AllYes(answers)
  }

  /** One thing goes wrong at most, and it is not a crash. */
  predicate OneTrouble(faults: seq<Fault>, answers: seq<bool>) {
    (OneRaise(faults) && AllYes(answers)) || (AllFine(faults) && OneNo(answers))
  }

  /** One or two heartbeats were sent, and the last one was accepted. */
  predicate LastYes(before: seq<bool>, after: seq<bool>) {
    || (Yes(before) && after == Rest(before))
    || (Yes(Rest(before)) && after == Rest(Rest(before)))
  }

  /** How an update without faults ends: the first heartbeat decides, and if it is turned down, the second. */
  function Verdict(confirmed: bool, answers: seq<bool>): End {
    if !confirmed then Cancelled else if Yes(answers) then Passed else if Yes(Rest(answers)) then Restored else Failed
  }

  /** What a fault makes of the flow. */
  function FlowOf(f: Fault): Flow {
    match f
    case Fine => Go
    case Raise(_) => Raised
    case Crash(_) => Crashed
  }

  /** The installation, as it can be found at any moment. */
  datatype State = State(installed: Files, hasRollback: bool, rollback: Files, foreign: bool, hasWork: bool,
                         previous: Files, marker: bool, running: bool, accepted: Files)

  predicate ValidRollback(s: State) {
    s.hasRollback ==> !s.foreign && Total(s.rollback)
  }

  /** Nothing happened. */
  ghost predicate Same(s: State, t: State) {
    && t.installed == s.installed && t.hasRollback == s.hasRollback && t.rollback == s.rollback
    && t.foreign == s.foreign && t.hasWork == s.hasWork && t.previous == s.previous
    && t.marker == s.marker && t.running == s.running
    && t.accepted == s.accepted
  }

  /** rollback/ was not touched. */
  ghost predicate SameRollback(s: State, t: State) {
    t.hasRollback == s.hasRollback && t.rollback == s.rollback && t.foreign == s.foreign
  }

  /** The complete old package lies in previous/ or in rollback/. */
  ghost predicate Recoverable(was: Files, t: State) {
    (t.hasWork && t.previous == was) || (t.hasRollback && t.rollback == was)
  }

  /** The new package is in, its heartbeat was accepted, and rollback/ holds the old one. */
  ghost predicate Switched(s: State, release: Files, t: State) {
    && t.installed == release && t.accepted == release
    && t.hasRollback && !t.foreign && t.rollback == s.installed && t.running
  }

  /** The old package is still in, or in again with an accepted heartbeat, and the service runs. */
  ghost predicate Kept(s: State, t: State) {
    && t.installed == s.installed && SameRollback(s, t) && t.running
    && (t.accepted == s.accepted || t.accepted == s.installed)
  }

  /** What holds wherever an update stops: the marker says whether the exchange is under way or settled. */
  ghost predicate Safe(s: State, release: Files, t: State, switched: bool)
    requires Total(s.installed) && Total(release)
  {
    && Mix(t.installed, s.installed, release)
    && (t.marker ==> t.hasWork && !switched && Recoverable(s.installed, t))
    && (!t.marker && switched ==> Switched(s, release, t))
    && (!t.marker && !switched ==> Kept(s, t))
  }

  /** What the update itself demands of the installation. */
  predicate Allowed(s: State) {
    s.running && Total(s.installed) && ValidRollback(s) && !s.hasWork
  }

  /** One update, from the state before it to the state after it. */
  ghost predicate Ran(s: State, release: Files, t: State, end: End, switched: bool) {
    && (!Allowed(s) ==> end == Refused)
    && (end == Refused ==> Same(s, t) && !switched)
    && (end != Refused ==> Total(s.installed) && Total(release) && Safe(s, release, t, switched))
    && (end == Passed ==> switched && !t.hasWork)
    && (end == Cancelled || end == Restored ==> !switched && !t.hasWork)
    && (end == Restored ==> t.accepted == s.installed)
  }

  class Installation {
    var installed: Files
    var hasRollback: bool
    var rollback: Files
    /** rollback/ holds something else besides package files. */
    var foreign: bool
    /** A .update-* directory exists, with candidate/, previous/ and perhaps the restore-required marker. */
    var hasWork: bool
    var candidate: Files
    var previous: Files
    var marker: bool
    var running: bool
    /** The installed files behind the latest accepted heartbeat. */
    var accepted: Files
    /** What happens at the next steps; nothing special once it is empty. */
    var faults: seq<Fault>
    /** Whether the hub accepts the next heartbeats; it does once this is empty. */
    var answers: seq<bool>

    constructor (installed: Files, running: bool, faults: seq<Fault>, answers: seq<bool>)
      ensures this.installed == installed && this.running == running
      ensures this.faults == faults && this.answers == answers
      ensures !hasRollback && !foreign && !hasWork && !marker && accepted == map[]
    {
      this.installed, this.running, this.faults, this.answers := installed, running, faults, answers;
      hasRollback, foreign, hasWork, marker := false, false, false, false;
      rollback, candidate, previous, accepted := map[], map[], map[], map[];
    }

    method Tick() returns (f: Fault)
      modifies this`faults
      ensures AllFine(old(faults)) ==> f == Fine && AllFine(faults)
      ensures OneRaise(old(faults)) ==> OneRaise(faults) && !f.Crash? && (f.Fine? || faults == [])
    {
      if |faults| == 0 {
        return Fine;
      }
      f := faults[0];
      faults := faults[1..];
    }

    /** `atomic_copy`: the destination changes in one step or not at all; only while the service is stopped. */
    method AtomicCopy(source: Files, n: Name) returns (flow: Flow)
      requires n in source && !running
      modifies this`installed, this`faults
      ensures installed == old(installed) || installed == old(installed)[n := source[n]]
      ensures flow.Go? ==> installed == old(installed)[n := source[n]]
      ensures Orderly(old(faults), old(answers), flow, faults, answers)
      ensures Fair(old(faults), flow, faults)
    {
      var f := Tick();
      if !f.Fine? {
        return FlowOf(f);
      }
      f := Tick();
      if f.Fine? || f.done > 0 {
        installed := installed[n := source[n]];
      }
      if !f.Fine? {
        return FlowOf(f);
      }
      f := Tick();
      flow := FlowOf(f);
    }

    /** Copies the whole package over the installed one, file by file. */
    method CopyAll(source: Files) returns (flow: Flow)
      requires Total(source) && Total(installed) && !running
      modifies this`installed, this`faults
      ensures Mix(installed, old(installed), source)
      ensures flow.Go? ==> installed == source
      ensures Orderly(old(faults), old(answers), flow, faults, answers)
      ensures Fair(old(faults), flow, faults)
    {
      for i := 0 to |NAMES|
        invariant Total(installed)
        invariant forall n: Name :: installed[n] == if n in NAMES[..i] then source[n] else old(installed)[n]
        invariant Orderly(old(faults), old(answers), Go, faults, answers) && Fair(old(faults), Go, faults)
      {
        assert NAMES[..i + 1] == NAMES[..i] + [NAMES[i]];
        flow := AtomicCopy(source, NAMES[i]);
        if !flow.Go? {
          return;
        }
      }
      assert NAMES[..|NAMES|] == NAMES;
      forall n: Name
        ensures installed[n] == source[n]
      {
        AllNames(n);
      }
      flow := Go;
    }

    ghost function Now(): State
      reads this
    {
      State(installed, hasRollback, rollback, foreign, hasWork, previous, marker, running, accepted)
    }

    method Step() returns (flow: Flow)
      modifies this`faults
      ensures Orderly(old(faults), old(answers), flow, faults, answers)
      ensures Fair(old(faults), flow, faults)
    {
      var f := Tick();
      flow := FlowOf(f);
    }

    /** What a write leaves at its destination when it is interrupted, or done. */
    method Write(files: Files, n: Name, data: Data) returns (written: Files, flow: Flow)
      modifies this`faults
      ensures flow.Go? ==> written == files[n := data]
      ensures Orderly(old(faults), old(answers), flow, faults, answers)
      ensures Fair(old(faults), flow, faults)
    {
      var f := Tick();
      written := if !f.Fine? && f.done == 0 then files
                 else if !f.Fine? && f.done == 1 then files[n := Torn]
                 else files[n := data];
      flow := FlowOf(f);
    }

    /** Fills a new directory with the files of a package. */
    method WriteAll(source: Files) returns (written: Files, flow: Flow)
      requires Total(source)
      modifies this`faults
      ensures flow.Go? ==> written == source
      ensures Orderly(old(faults), old(answers), flow, faults, answers)
      ensures Fair(old(faults), flow, faults)
    {
      written := map[];
      for i := 0 to |NAMES|
        invariant forall n: Name :: n in written <==> n in NAMES[..i]
        invariant forall n: Name | n in written :: written[n] == source[n]
        invariant Orderly(old(faults), old(answers), Go, faults, answers) && Fair(old(faults), Go, faults)
      {
        assert NAMES[..i + 1] == NAMES[..i] + [NAMES[i]];
        written, flow := Write(written, NAMES[i], source[NAMES[i]]);
        if !flow.Go? {
          return;
        }
      }
      assert NAMES[..|NAMES|] == NAMES;
      forall n: Name
        ensures n in written
      {
        AllNames(n);
      }
      flow := Go;
    }

    method StopService() returns (flow: Flow)
      modifies this`faults, this`running
      ensures flow.Go? ==> !running
      ensures Orderly(old(faults), old(answers), flow, faults, answers)
      ensures Fair(old(faults), flow, faults)
    {
      var f := Tick();
      if f.Fine? || f.done > 0 {
        running := false;
      }
      flow := FlowOf(f);
    }

    method StartService() returns (flow: Flow)
      modifies this`faults, this`running
      ensures flow.Go? ==> running
      ensures Orderly(old(faults), old(answers), flow, faults, answers)
      ensures Fair(old(faults), flow, faults)
    {
      var f := Tick();
      if f.Fine? || f.done > 0 {
        running := true;
      }
      flow := FlowOf(f);
    }

    /** `verify_running`: one real heartbeat, an active service, an unchanged configuration. */
    method VerifyRunning() returns (flow: Flow)
      modifies this`faults, this`accepted, this`answers
      ensures flow.Go? ==> accepted == installed && Yes(old(answers)) && answers == Rest(old(answers))
      ensures answers == old(answers) || answers == Rest(old(answers))
      ensures AllFine(old(faults)) ==> AllFine(faults) && flow == if Yes(old(answers)) then Go else Raised
      ensures AllFine(old(faults)) ==> answers == Rest(old(answers))
      ensures Orderly(old(faults), old(answers), flow, faults, answers)
    {
      flow := Step();
      if !flow.Go? {
        return;
      }
      var yes := Yes(answers);
      answers := Rest(answers);
      if !yes {
        return Raised;
      }
      accepted := installed;
    }

    /** Puts the package in place, starts the service and verifies it. */
    method Install(source: Files) returns (flow: Flow)
      requires Total(source) && Total(installed) && !running
      modifies this`installed, this`running, this`accepted, this`faults, this`answers
      ensures Mix(installed, old(installed), source)
      ensures flow.Go? ==> installed == source && accepted == source && running
      ensures flow.Go? ==> Yes(old(answers)) && answers == Rest(old(answers))
      ensures answers == old(answers) || answers == Rest(old(answers))
      ensures AllFine(old(faults)) ==> AllFine(faults) && flow == if Yes(old(answers)) then Go else Raised
      ensures AllFine(old(faults)) ==> answers == Rest(old(answers))
      ensures Orderly(old(faults), old(answers), flow, faults, answers)
    {
      flow := CopyAll(source);
      if flow.Go? {
        flow := StartService();
      }
      if flow.Go? {
        flow := VerifyRunning();
      }
    }

    /** Removes the marker; an interruption may come before or after. */
    method Unmark() returns (flow: Flow)
      modifies this`marker, this`faults
      ensures flow.Go? ==> !marker
      ensures Orderly(old(faults), old(answers), flow, faults, answers)
      ensures Fair(old(faults), flow, faults)
    {
      var f := Tick();
      if f.Fine? || f.done > 0 {
        marker := false;
      }
      flow := FlowOf(f);
    }

    /** The exception handler: the old files come back from previous/, and only their heartbeat removes the marker. */
    method Restore() returns (flow: Flow)
      requires Total(previous) && Total(installed) && marker
      modifies this`installed, this`running, this`accepted, this`marker, this`faults, this`answers
      ensures Mix(installed, old(installed), previous)
      ensures flow.Go? ==> !marker
      ensures !marker ==> Yes(old(answers)) && answers == Rest(old(answers))
      ensures AllFine(old(faults)) ==> AllFine(faults) && flow == if Yes(old(answers)) then Go else Raised
      ensures !marker ==> installed == previous && accepted == previous && running
      ensures Orderly(old(faults), old(answers), flow, faults, answers)
    {
      flow := StopService();
      if flow.Go? {
        flow := Install(previous);
      }
      if flow.Go? {
        flow := Unmark();
      }
    }

    /** Replaces the package; an exception on the way brings the old one back. */
    method Exchange() returns (flow: Flow, restored: bool)
      requires Total(candidate) && Total(previous) && previous == installed && marker && !running
      modifies this`installed, this`running, this`accepted, this`marker, this`faults, this`answers
      ensures Mix(installed, old(installed), candidate)
      ensures flow.Go? ==> Yes(old(answers)) && answers == Rest(old(answers))
      ensures restored ==> LastYes(old(answers), answers)
      ensures flow.Go? ==> marker && installed == candidate && accepted == candidate && running
      ensures !marker ==> installed == previous && accepted == previous && running
      ensures restored ==> flow.Raised? && !marker
      ensures AllFine(old(faults)) ==> AllFine(faults) && flow == if Yes(old(answers)) then Go else Raised
      ensures AllFine(old(faults)) ==> (restored <==> !Yes(old(answers)) && Yes(Rest(old(answers))))
      ensures OneTrouble(old(faults), old(answers)) && !flow.Go? ==> restored
      ensures Orderly(old(faults), old(answers), flow, faults, answers)
    {
      restored := false;
      flow := Install(candidate);
      if flow.Raised? {
        ghost var mixed := installed;
        var back := Restore();
        MixBack(installed, mixed, previous, candidate);
        restored := back.Go?;
        flow := if back.Go? then Raised else back;
      }
    }

    /** Removes some or all files of a directory. */
    method RemoveTree(files: Files, f: Fault) returns (left: Files)
    {
      left := if f.Fine? || f.done > 3 then map[]
              else if f.done == 0 then files
              else if f.done == 1 then files - {AgentBinary}
              else if f.done == 2 then files - {AgentBinary, ReleaseFile}
              else files - {AgentBinary, ReleaseFile, SetupScript};
    }

    /** The old package takes the place of the one before it; then the marker goes. */
    method Rotate() returns (flow: Flow)
      requires marker && hasWork
      modifies this`hasRollback, this`rollback, this`foreign, this`previous, this`marker, this`faults
      ensures Recoverable(old(previous), Now())
      ensures flow.Go? ==> !marker
      ensures !marker ==> hasRollback && !foreign && rollback == old(previous)
      ensures Calm(old(faults), old(answers)) && ValidRollback(old(Now())) ==> flow.Go?
      ensures Orderly(old(faults), old(answers), flow, faults, answers) || !ValidRollback(old(Now()))
      ensures Fair(old(faults), flow, faults) || !ValidRollback(old(Now()))
    {
      flow := Step();
      if !flow.Go? {
        return;
      }
      if hasRollback && (foreign || !Total(rollback)) {
        return Raised;
      }
      flow := DropRollback();
      if flow.Go? {
        flow := MovePrevious();
      }
      if flow.Go? {
        flow := Unmark();
      }
      if flow.Go? {
        flow := Step();
      }
    }

    /** Removes the package before the previous one. */
    method DropRollback() returns (flow: Flow)
      modifies this`hasRollback, this`rollback, this`faults
      ensures flow.Go? ==> !hasRollback
      ensures Orderly(old(faults), old(answers), flow, faults, answers)
      ensures Fair(old(faults), flow, faults)
    {
      var f := Tick();
      if hasRollback {
        rollback := RemoveTree(rollback, f);
        hasRollback := !f.Fine?;
      }
      flow := FlowOf(f);
    }

    /** Renames previous/ to rollback/, in one step. */
    method MovePrevious() returns (flow: Flow)
      modifies this`hasRollback, this`rollback, this`foreign, this`previous, this`faults
      ensures flow.Go? ==> hasRollback && !foreign && rollback == old(previous)
      ensures (previous == old(previous) && hasRollback == old(hasRollback) && rollback == old(rollback)
                && foreign == old(foreign)) || (hasRollback && !foreign && rollback == old(previous))
      ensures Orderly(old(faults), old(answers), flow, faults, answers)
      ensures Fair(old(faults), flow, faults)
    {
      var f := Tick();
      if f.Fine? || f.done > 0 {
        hasRollback, rollback, foreign, previous := true, previous, false, map[];
      }
      flow := FlowOf(f);
    }

    /** Fills candidate/ with the new package and, once confirmed, previous/ with the old; the marker comes last. */
    method Prepare(release: Files, confirmed: bool) returns (flow: Flow)
      requires Total(release) && Total(installed) && !marker
      modifies this`candidate, this`previous, this`marker, this`faults
      ensures flow.Go? ==> marker == confirmed
      ensures marker ==> confirmed && candidate == release && previous == installed
      ensures Orderly(old(faults), old(answers), flow, faults, answers)
      ensures Fair(old(faults), flow, faults)
    {
      candidate, flow := WriteAll(release);
      if !flow.Go? || !confirmed {
        return;
      }
      previous, flow := WriteAll(installed);
      if !flow.Go? {
        return;
      }
      flow := Step();
      if !flow.Go? {
        return;
      }
      var f := Tick();
      if f.Fine? || f.done > 0 {
        marker := true;
      }
      flow := FlowOf(f);
    }

    /** From the stop of the service to the removal of the marker. */
    method Commit(ghost release: Files) returns (flow: Flow, restored: bool, ghost switched: bool)
      requires marker && hasWork && Total(installed) && Total(release) && candidate == release && previous == installed
      requires ValidRollback(Now())
      modifies this`installed, this`running, this`accepted, this`marker, this`faults, this`answers,
               this`hasRollback, this`rollback, this`foreign, this`previous
      ensures Safe(old(Now()), release, Now(), switched)
      ensures flow.Go? ==> !marker && switched && Yes(old(answers)) && answers == Rest(old(answers))
      ensures restored ==> LastYes(old(answers), answers)
      ensures restored ==> flow.Raised? && !marker && !switched && accepted == old(installed)
      ensures AllFine(old(faults)) ==> AllFine(faults) && flow == if Yes(old(answers)) then Go else Raised
      ensures AllFine(old(faults)) ==> (restored <==> !Yes(old(answers)) && Yes(Rest(old(answers))))
      ensures OneTrouble(old(faults), old(answers)) ==> installed == old(installed) || installed == release
      ensures Orderly(old(faults), old(answers), flow, faults, answers)
    {
      restored, switched := false, false;
      flow := StopService();
      if !flow.Go? {
        return;
      }
      flow, restored := Exchange();
      if !flow.Go? {
        return;
      }
      flow := Rotate();
      switched := !marker;
    }

    /** The body of the workspace block. */
    method Body(release: Files, confirmed: bool) returns (flow: Flow, end: End, ghost switched: bool)
      requires hasWork && !marker && running && Total(installed) && Total(release) && ValidRollback(Now())
      modifies this
      ensures hasWork == old(hasWork) && Safe(old(Now()), release, Now(), switched)
      ensures flow.Go? ==> !marker && switched == confirmed && end == if confirmed then Passed else Cancelled
      ensures flow.Raised? ==> end == Restored || end == Failed
      ensures end == Restored ==> flow.Raised? && !marker && !switched && accepted == old(installed)
      ensures AllFine(old(faults)) ==> AllFine(faults) && !flow.Crashed? && end == Verdict(confirmed, old(answers))
      ensures end == Passed ==> Yes(old(answers)) && answers == Rest(old(answers))
      ensures end == Restored ==> LastYes(old(answers), answers)
      ensures OneTrouble(old(faults), old(answers)) ==> installed == old(installed) || installed == release
      ensures Orderly(old(faults), old(answers), flow, faults, answers)
    {
      end, switched := Failed, false;
      flow := Prepare(release, confirmed);
      if !flow.Go? {
        return;
      }
      if !confirmed {
        end := Cancelled;
        return;
      }
      var restored;
      flow, restored, switched := Commit(release);
      end := if flow.Go? then Passed else if restored then Restored else Failed;
    }

    /** A new workspace, without marker. */
    method Open() returns (flow: Flow)
      requires !hasWork && !marker
      modifies this`hasWork, this`candidate, this`previous, this`faults
      ensures flow.Go? ==> hasWork
      ensures Orderly(old(faults), old(answers), flow, faults, answers)
      ensures Fair(old(faults), flow, faults)
    {
      var f := Tick();
      if f.Fine? || f.done > 0 {
        hasWork, candidate, previous := true, map[], map[];
      }
      flow := FlowOf(f);
    }

    /** The workspace goes, unless the marker says that its contents are needed. */
    method Close() returns (flow: Flow)
      modifies this`hasWork, this`candidate, this`previous, this`faults
      ensures marker ==> flow.Go? && hasWork == old(hasWork) && previous == old(previous)
      ensures flow.Go? && !marker ==> !hasWork
      ensures Orderly(old(faults), old(answers), flow, faults, answers)
      ensures Fair(old(faults), flow, faults)
    {
      if marker {
        return Go;
      }
      var f := Tick();
      candidate := RemoveTree(candidate, f);
      previous := RemoveTree(previous, f);
      hasWork := hasWork && !f.Fine?;
      flow := FlowOf(f);
    }

    /**
      One update. It is refused where a check fails or a workspace of an earlier update is left; wherever else it
      stops, the installation is safe.
     */
    method Update(release: Files, ready: bool, confirmed: bool) returns (end: End, ghost switched: bool)
      requires Total(release) && (marker ==> hasWork)
      modifies this
      ensures Ran(old(Now()), release, Now(), end, switched)
      ensures end == Refused <==> !ready || !Allowed(old(Now()))
      ensures end == Passed ==> Yes(old(answers)) && answers == Rest(old(answers))
      ensures end == Restored ==> LastYes(old(answers), answers)
      ensures OneTrouble(old(faults), old(answers)) ==> installed == old(installed) || installed == release
      ensures AllFine(old(faults)) && end != Refused ==> end == Verdict(confirmed, old(answers))
    {
      switched := false;
      if !ready || !running || !Total(installed) || (hasRollback && (foreign || !Total(rollback))) || hasWork {
        return Refused, false;
      }
      var flow := Open();
      if !flow.Go? {
        end := if flow.Crashed? then Dead else Failed;
        return;
      }
      end, switched := Inside(release, confirmed);
    }

    /** The workspace block: its body, and then, unless the machine stopped, its end. */
    method Inside(release: Files, confirmed: bool) returns (end: End, ghost switched: bool)
      requires hasWork && !marker && running && Total(installed) && Total(release) && ValidRollback(Now())
      modifies this
      ensures end != Refused && Safe(old(Now()), release, Now(), switched)
      ensures end == Passed ==> switched && !hasWork
      ensures end == Cancelled || end == Restored ==> !switched && !hasWork
      ensures end == Restored ==> accepted == old(installed) && LastYes(old(answers), answers)
      ensures end == Passed ==> Yes(old(answers)) && answers == Rest(old(answers))
      ensures OneTrouble(old(faults), old(answers)) ==> installed == old(installed) || installed == release
      ensures AllFine(old(faults)) ==> end == Verdict(confirmed, old(answers))
    {
      var flow;
      flow, end, switched := Body(release, confirmed);
      if flow.Crashed? {
        end := Dead;
        return;
      }
      var closed := Close();
      if !closed.Go? {
        end := if closed.Crashed? then Dead else Failed;
      }
    }
  }

  /** A step that sends no heartbeat goes well when there is no fault. */
  predicate Fair(faults: seq<Fault>, flow: Flow, faults': seq<Fault>) {
    AllFine(faults) ==> flow.Go? && AllFine(faults')
  }

  /** No trouble ahead, no trouble; and after the only trouble there is none ahead. */
  predicate Orderly(faults: seq<Fault>, answers: seq<bool>, flow: Flow, faults': seq<Fault>, answers': seq<bool>) {
    && (Calm(faults, answers) ==> flow.Go? && Calm(faults', answers'))
    && (OneTrouble(faults, answers) ==>
          OneTrouble(faults', answers') && !flow.Crashed? && (flow.Go? || Calm(faults', answers')))
  }

  /** Going back to one of two packages from a mixture of them. */
  lemma MixBack(f: Files, mixed: Files, a: Files, b: Files)
    requires Total(a) && Total(b) && Mix(mixed, a, b) && Mix(f, mixed, a)
    ensures Mix(f, a, b)
  {
  }

  // ---- Histories of updates ----

  datatype Attempt = Attempt(before: State, release: Files, after: State, end: End, switched: bool)

  /** Updates one after the other, with nothing else touching the files, from a running, clean installation. */
  ghost predicate History(first: State, h: seq<Attempt>) {
    && Total(first.installed) && first.running && !first.hasWork && !first.marker
    && (|h| > 0 ==> Same(first, h[0].before))
    && (forall i | 0 <= i < |h| :: Ran(h[i].before, h[i].release, h[i].after, h[i].end, h[i].switched))
    && (forall i | 0 < i < |h| :: Same(h[i - 1].after, h[i].before))
  }

  /** The state after the history. */
  function Final(first: State, h: seq<Attempt>): State {
    if |h| == 0 then first else h[|h| - 1].after
  }

  /** The package of the latest update that switched. */
  function Current(first: State, h: seq<Attempt>): Files {
    if |h| == 0 then first.installed
    else if h[|h| - 1].switched then h[|h| - 1].release
    else Current(first, h[..|h| - 1])
  }

  predicate Updated(h: seq<Attempt>) {
    exists i | 0 <= i < |h| :: h[i].switched
  }

  /** The package before it. */
  function Former(first: State, h: seq<Attempt>): Files {
    if |h| == 0 then first.installed
    else if h[|h| - 1].switched then Current(first, h[..|h| - 1])
    else Former(first, h[..|h| - 1])
  }

  lemma HistoryInit(first: State, h: seq<Attempt>)
    requires History(first, h) && |h| > 0
    ensures History(first, h[..|h| - 1]) && Same(Final(first, h[..|h| - 1]), h[|h| - 1].before)
    ensures Updated(h) <==> h[|h| - 1].switched || Updated(h[..|h| - 1])
  {
    var init := h[..|h| - 1];
    if Updated(h) {
      var i :| 0 <= i < |h| && h[i].switched;
      assert i == |h| - 1 || init[i].switched;
    }
    if i :| 0 <= i < |init| && init[i].switched {
      assert h[i].switched;
    }
  }

  /** What a state of a history is like, given the current package and the one before. */
  ghost predicate Sound(t: State, current: Files, former: Files, updated: bool) {
    && (t.marker ==> t.hasWork && Recoverable(current, t))
    && (!t.marker ==> t.installed == current && t.running)
    && (!t.marker && updated ==> t.accepted == current && t.hasRollback && t.rollback == former)
  }

  lemma SoundNext(s: State, a: Attempt, current: Files, former: Files, updated: bool)
    requires Ran(a.before, a.release, a.after, a.end, a.switched) && Same(s, a.before)
    requires Sound(s, current, former, updated)
    ensures Sound(a.after, if a.switched then a.release else current, if a.switched then current else former,
                  updated || a.switched)
  {
    if a.end != Refused {
      assert Allowed(a.before);
      assert !s.marker && a.before.installed == current;
    }
  }

  /**
    Whatever happens in however many updates: without a marker the installed files are the package of the latest
    update that went through, running and verified, with the package before it in rollback/; with a marker that package
    is complete in previous/ or rollback/.
   */
  lemma {:induction false} EveryHistoryIsSound(first: State, h: seq<Attempt>)
    requires History(first, h)
    ensures Sound(Final(first, h), Current(first, h), Former(first, h), Updated(h))
  {
    if |h| > 0 {
      var n := |h| - 1;
      HistoryInit(first, h);
      EveryHistoryIsSound(first, h[..n]);
      SoundNext(Final(first, h[..n]), h[n], Current(first, h[..n]), Former(first, h[..n]), Updated(h[..n]));
    }
  }

  /** A workspace that is left stops every later update before it changes anything. */
  lemma {:induction false} LeftoverBlocks(first: State, h: seq<Attempt>, i: nat)
    requires History(first, h) && i < |h| && h[i].after.hasWork
    ensures Same(h[i].after, Final(first, h))
    ensures forall j | i < j < |h| :: h[j].end == Refused
  {
    var n := |h| - 1;
    if i < n {
      HistoryInit(first, h);
      LeftoverBlocks(first, h[..n], i);
      forall j | i < j < n
        ensures h[j].end == Refused
      {
        assert h[..n][j] == h[j];
      }
      assert Ran(h[n].before, h[n].release, h[n].after, h[n].end, h[n].switched);
    }
  }

  /** The installed files are never torn and never leave the two packages of the update at work. */
  lemma MixedOnlyWithMarker(first: State, h: seq<Attempt>)
    requires History(first, h) && |h| > 0 && h[|h| - 1].end != Refused
    ensures var last := h[|h| - 1];
            && Total(last.before.installed) && Total(last.release)
            && Mix(last.after.installed, last.before.installed, last.release)
            && (last.after.installed == last.before.installed || last.after.installed == last.release
                || last.after.marker)
  {
    assert Ran(h[|h| - 1].before, h[|h| - 1].release, h[|h| - 1].after, h[|h| - 1].end, h[|h| - 1].switched);
  }
}
