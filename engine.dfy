/**
 * The scoring engine: a registry of vulnerability conditions that `Update`
 * dispatches in one pass, a score ledger, the run-state flags and the two
 * tuning counters. The mutexes and atomics of the original guard the same
 * fields; here the engine runs on one thread and the fields are plain state.
 *
 * A condition's predicate is a closure the model cannot see. Each dispatch
 * therefore receives a `Reply` from the environment: whether the file of a
 * file condition could be opened, the boolean the closure returns, and the
 * calls it makes back into the engine while it runs.
 */
module ScoringEngine {
  import opened Wrappers
  import opened Ints
  import opened Ledger

  datatype InstallMethod = Default | PackageManager | WinGet | Snap | Flatpak | ManualInstall

  datatype AppData = AppData(installMethod: InstallMethod, name: string)

  datatype UserData = UserData(name: string)

  /**
   * The kind of a registered check, with what it is about. A file condition
   * keeps only its path. `CustomVuln(true)` is the condition `add_hook`
   * registers: it wraps the hook in a closure that discards the hook's result.
   */
  datatype Condition =
    | FileVuln(path: string)
    | AppVuln(app: AppData)
    | UserVuln(user: UserData)
    | CustomVuln(wrapsHook: bool)

  /** A registry entry: the condition and whether its last dispatch judged it completed. */
  datatype VulnEntry = VulnEntry(cond: Condition, completed: bool)

  /** What a predicate is handed besides the engine itself. */
  datatype Context =
    | FileArg(handleOpen: bool)
    | AppArg(app: AppData)
    | UserArg(name: string)
    | NoArg

  /** A call a predicate makes into the engine while it runs. */
  datatype Effect = ScoreCall(op: Op) | StopRequest

  /** What the environment answers for one dispatch. */
  datatype Reply = Reply(fileOpens: bool, verdict: bool, effects: seq<Effect>)

  /** The argument `handle_vulnerability` passes to the predicate of `c`. */
  function ContextFor(c: Condition, fileOpens: bool): Context {
    match c
    case FileVuln(_) => FileArg(fileOpens)
    case AppVuln(app) => AppArg(app)
    case UserVuln(user) => UserArg(user.name)
    case CustomVuln(_) => NoArg
  }

  /** The value the closure stored for `c` returns when its predicate answers `verdict`. */
  function Outcome(c: Condition, verdict: bool): bool {
    match c
    case CustomVuln(true) => false
    case _ => verdict
  }

  /** The ledger calls among `effects`, in order. */
  function LedgerOps(effects: seq<Effect>): seq<Op> {
    if effects == [] then []
    else
      var last := effects[|effects| - 1];
      LedgerOps(effects[..|effects| - 1]) + if last.ScoreCall? then [last.op] else []
  }

  /** All effects of one dispatch pass, in dispatch order. */
  function AllEffects(replies: seq<Reply>): seq<Effect> {
    if replies == [] then [] else AllEffects(replies[..|replies| - 1]) + replies[|replies| - 1].effects
  }

  lemma {:induction false} LedgerOpsAppend(a: seq<Effect>, b: seq<Effect>)
    ensures LedgerOps(a + b) == LedgerOps(a) + LedgerOps(b)
  {
    if b == [] {
      assert a + b == a;
    } else {
      var b' := b[..|b| - 1];
      assert (a + b)[..|a + b| - 1] == a + b';
      LedgerOpsAppend(a, b');
    }
  }

  /** The conditions of a registry, in registration order. */
  function Conds(v: seq<VulnEntry>): seq<Condition> {
    seq(|v|, i requires 0 <= i < |v| => v[i].cond)
  }

  /** The arguments one pass hands out: entry `i` gets the argument for its condition and reply `i`. */
  function Dispatch(conds: seq<Condition>, replies: seq<Reply>): seq<Context>
    requires |conds| == |replies|
  {
    seq(|conds|, i requires 0 <= i < |conds| => ContextFor(conds[i], replies[i].fileOpens))
  }

  /** The registry after one pass: every flag overwritten by what its closure returned. */
  function Judge(v: seq<VulnEntry>, replies: seq<Reply>): (r: seq<VulnEntry>)
    requires |v| == |replies|
    ensures |r| == |v| && Conds(r) == Conds(v)
  {
    var r := seq(|v|, i requires 0 <= i < |v| => VulnEntry(v[i].cond, Outcome(v[i].cond, replies[i].verdict)));
    assert Conds(r) == Conds(v);
    r
  }

  lemma LedgerOpsStep(effects: seq<Effect>, j: nat)
    requires j < |effects|
    ensures LedgerOps(effects[..j + 1]) ==
      LedgerOps(effects[..j]) + if effects[j].ScoreCall? then [effects[j].op] else []
  {
    assert effects[..j + 1][..j] == effects[..j];
  }

  /** What a pass stores per entry: nothing for a hook, the predicate's answer otherwise. */
  lemma JudgeFlags(v: seq<VulnEntry>, replies: seq<Reply>)
    requires |v| == |replies|
    ensures forall k :: 0 <= k < |v| && v[k].cond == CustomVuln(true) ==> !Judge(v, replies)[k].completed
    ensures forall k :: 0 <= k < |v| && v[k].cond != CustomVuln(true) ==> Judge(v, replies)[k].completed == replies[k].verdict
  {
  }

  /** What a pass hands each predicate, by condition kind. */
  lemma DispatchArgs(conds: seq<Condition>, replies: seq<Reply>)
    requires |conds| == |replies|
    ensures forall k :: 0 <= k < |conds| && conds[k].FileVuln? ==> Dispatch(conds, replies)[k] == FileArg(replies[k].fileOpens)
    ensures forall k :: 0 <= k < |conds| && conds[k].AppVuln? ==> Dispatch(conds, replies)[k] == AppArg(conds[k].app)
    ensures forall k :: 0 <= k < |conds| && conds[k].UserVuln? ==> Dispatch(conds, replies)[k] == UserArg(conds[k].user.name)
    ensures forall k :: 0 <= k < |conds| && conds[k].CustomVuln? ==> Dispatch(conds, replies)[k] == NoArg
  {
  }

  /** The ledger calls of a whole pass, entry by entry. */
  function PassOps(replies: seq<Reply>): seq<Op> {
    if replies == [] then [] else PassOps(replies[..|replies| - 1]) + LedgerOps(replies[|replies| - 1].effects)
  }

  /** Whether some predicate of the pass asked the engine to stop. */
  predicate StopAsked(replies: seq<Reply>) {
    replies != [] && (StopAsked(replies[..|replies| - 1]) || StopRequest in replies[|replies| - 1].effects)
  }

  /** The per-entry accounts of a pass agree with its flattened list of calls. */
  lemma {:induction false} PassFlattens(replies: seq<Reply>)
    ensures PassOps(replies) == LedgerOps(AllEffects(replies))
    ensures StopAsked(replies) <==> StopRequest in AllEffects(replies)
  {
    if replies != [] {
      var init := replies[..|replies| - 1];
      PassFlattens(init);
      LedgerOpsAppend(AllEffects(init), replies[|replies| - 1].effects);
    }
  }

  /** Dispatching entry `i` extends the pass so far by that entry's calls. */
  lemma PassStep(s0: seq<ScoreEntry>, replies: seq<Reply>, i: nat)
    requires i < |replies|
    ensures PassOps(replies[..i + 1]) == PassOps(replies[..i]) + LedgerOps(replies[i].effects)
    ensures StopAsked(replies[..i + 1]) <==> StopAsked(replies[..i]) || StopRequest in replies[i].effects
    ensures Replay(s0, PassOps(replies[..i + 1]))
      == Replay(Replay(s0, PassOps(replies[..i])), LedgerOps(replies[i].effects))
  {
    assert replies[..i + 1][..i] == replies[..i];
    ReplayAppend(s0, PassOps(replies[..i]), LedgerOps(replies[i].effects));
  }

  /** The ledger calls of the first `n` passes of a run, pass by pass. */
  function RunOps(passes: seq<seq<Reply>>, n: nat): seq<Op>
    requires n <= |passes|
  {
    if n == 0 then [] else RunOps(passes, n - 1) + PassOps(passes[n - 1])
  }

  /** Every pass of a run answers every entry of a registry with these conditions. */
  predicate Fits(conds: seq<Condition>, passes: seq<seq<Reply>>) {
    forall t :: 0 <= t < |passes| ==> |passes[t]| == |conds|
  }

  /** The arguments the first `n` passes of a run hand out, pass by pass. */
  function DispatchRun(conds: seq<Condition>, passes: seq<seq<Reply>>, n: nat): (log: seq<seq<Context>>)
    requires n <= |passes| && Fits(conds, passes)
    ensures |log| == n
  {
    if n == 0 then [] else DispatchRun(conds, passes, n - 1) + [Dispatch(conds, passes[n - 1])]
  }

  /** None of the first `n` passes of a run asked the engine to stop. */
  predicate NoneStop(passes: seq<seq<Reply>>, n: nat)
    requires n <= |passes|
  {
    n == 0 || (NoneStop(passes, n - 1) && !StopAsked(passes[n - 1]))
  }

  lemma {:induction false} DispatchRunAt(conds: seq<Condition>, passes: seq<seq<Reply>>, n: nat)
    requires n <= |passes| && Fits(conds, passes)
    ensures forall t :: 0 <= t < n ==> DispatchRun(conds, passes, n)[t] == Dispatch(conds, passes[t])
  {
    if n > 0 {
      DispatchRunAt(conds, passes, n - 1);
    }
  }

  lemma {:induction false} NoneStopAt(passes: seq<seq<Reply>>, n: nat)
    requires n <= |passes|
    ensures NoneStop(passes, n) <==> forall t :: 0 <= t < n ==> !StopAsked(passes[t])
  {
    if n > 0 {
      NoneStopAt(passes, n - 1);
    }
  }

  /** A pass overwrites every flag, so its result depends only on the conditions. */
  lemma JudgeConds(v: seq<VulnEntry>, w: seq<VulnEntry>, replies: seq<Reply>)
    requires |v| == |w| == |replies| && Conds(v) == Conds(w)
    ensures Judge(v, replies) == Judge(w, replies)
  {
    assert forall i :: 0 <= i < |v| ==> Conds(v)[i] == v[i].cond && Conds(w)[i] == w[i].cond;
  }

  class Engine {
    var isRunning: bool
    var score: seq<ScoreEntry>
    var vulns: seq<VulnEntry>
    var incompleteFreq: u64
    var completeFreq: u64
    var inExecution: bool
    var stepIter: u64

    /** The ledger invariant every public operation keeps. */
    ghost predicate Valid()
      reads this
    {
      DistinctIds(score)
    }

    /** `new`: empty ledger and registry, not running, default frequencies. */
    constructor ()
      ensures Valid()
      ensures score == [] && vulns == []
      ensures !isRunning && !inExecution && stepIter == 0
      ensures incompleteFreq == 5 && completeFreq == 10
    {
      isRunning := false;
      score := [];
      vulns := [];
      incompleteFreq := 5;
      completeFreq := 10;
      inExecution := false;
      stepIter := 0;
    }

    /** `add_vuln`: append the condition, not completed, after every earlier one. */
    method AddVuln(c: Condition)
      modifies this`vulns
      ensures vulns == old(vulns) + [VulnEntry(c, false)]
    {
      vulns := vulns + [VulnEntry(c, false)];
    }

    method AddFileVuln(path: string)
      modifies this`vulns
      ensures vulns == old(vulns) + [VulnEntry(FileVuln(path), false)]
    {
      AddVuln(FileVuln(path));
    }

    method AddAppVuln(name: string, installMethod: InstallMethod)
      modifies this`vulns
      ensures vulns == old(vulns) + [VulnEntry(AppVuln(AppData(installMethod, name)), false)]
    {
      AddVuln(AppVuln(AppData(installMethod, name)));
    }

    method AddUserVuln(name: string)
      modifies this`vulns
      ensures vulns == old(vulns) + [VulnEntry(UserVuln(UserData(name)), false)]
    {
      AddVuln(UserVuln(UserData(name)));
    }

    method AddMiscVuln()
      modifies this`vulns
      ensures vulns == old(vulns) + [VulnEntry(CustomVuln(false), false)]
    {
      AddVuln(CustomVuln(false));
    }

    /** `add_hook`: a miscellaneous condition whose closure always yields `false`. */
    method AddHook()
      modifies this`vulns
      ensures vulns == old(vulns) + [VulnEntry(CustomVuln(true), false)]
      ensures !Outcome(vulns[|vulns| - 1].cond, true)
    {
      AddVuln(CustomVuln(true));
    }

    method SetFreq(frequency: u64)
      modifies this`incompleteFreq
      ensures incompleteFreq == frequency
    {
      incompleteFreq := frequency;
    }

    method SetCompletedFreq(frequency: u64)
      modifies this`completeFreq
      ensures completeFreq == frequency
    {
      completeFreq := frequency;
    }

    /**
     * `add_score`: scan for the id; overwrite the first match in place, or
     * push a new entry at the end.
     */
    method AddScore(id: u64, add: i32, reason: string)
      modifies this`score
      ensures score == Upserted(old(score), id, add, reason)
      ensures old(Valid()) ==> Valid()
    {
      var i := 0;
      while i < |score|
        invariant 0 <= i <= |score|
        invariant score == old(score)
        invariant forall k :: 0 <= k < i ==> score[k].id != id
      {
        if score[i].id == id {
          IndexOfAt(score, id, i);
          UpsertedSpec(score, id, add, reason);
          score := score[i := ScoreEntry(id, add, reason)];
          return;
        }
        i := i + 1;
      }
      UpsertedSpec(score, id, add, reason);
      score := score + [ScoreEntry(id, add, reason)];
    }

    /** `remove_score`: remove the first entry with the id, or report that there is none. */
    method RemoveScore(id: u64) returns (r: Result<(), ()>)
      modifies this`score
      ensures r.Ok? <==> IndexOf(old(score), id).Some?
      ensures score == Removed(old(score), id)
      ensures old(Valid()) ==> Valid()
    {
      var i := 0;
      while i < |score|
        invariant 0 <= i <= |score|
        invariant score == old(score)
        invariant forall k :: 0 <= k < i ==> score[k].id != id
      {
        if score[i].id == id {
          IndexOfAt(score, id, i);
          RemovedSpec(score, id);
          score := score[..i] + score[i + 1..];
          return Ok(());
        }
        i := i + 1;
      }
      return Err(());
    }

    /** `generate_score_report`: `(reason, value)` of every entry, in ledger order. */
    method GenerateScoreReport() returns (report: seq<(string, i32)>)
      ensures |report| == |score|
      ensures forall i :: 0 <= i < |score| ==> report[i] == (score[i].reason, score[i].value)
    {
      report := [];
      var i := 0;
      while i < |score|
        invariant 0 <= i <= |score|
        invariant |report| == i
        invariant forall k :: 0 <= k < i ==> report[k] == (score[k].reason, score[k].value)
      {
        report := report + [(score[i].reason, score[i].value)];
        i := i + 1;
      }
    }

    /**
     * `calc_total_score`: the fold `acc + value` from 0. Each partial sum is
     * an `i32` addition, which must not overflow.
     */
    method CalcTotalScore() returns (total: i32)
      requires forall k :: 0 <= k <= |score| ==> IsI32(Sum(score[..k]))
      ensures total == Sum(score)
    {
      total := 0;
      var i := 0;
      while i < |score|
        invariant 0 <= i <= |score|
        invariant total == Sum(score[..i])
      {
        assert score[..i + 1][..i] == score[..i];
        assert IsI32(Sum(score[..i + 1]));
        total := total + score[i].value;
        i := i + 1;
      }
      assert score[..i] == score;
    }

    /** `get_entry`: a copy of the first entry with the id, if any. */
    method GetEntry(id: u64) returns (r: Option<ScoreEntry>)
      ensures r.Some? <==> IndexOf(score, id).Some?
      ensures r.Some? ==> r.value == score[IndexOf(score, id).value] && r.value.id == id
    {
      var i := 0;
      while i < |score|
        invariant 0 <= i <= |score|
        invariant forall k :: 0 <= k < i ==> score[k].id != id
      {
        if id == score[i].id {
          IndexOfAt(score, id, i);
          return Some(score[i]);
        }
        i := i + 1;
      }
      return None;
    }

    /** `entry_exists`: whether some entry carries the id. */
    method EntryExists(id: u64) returns (b: bool)
      ensures b <==> IndexOf(score, id).Some?
      ensures b <==> exists k :: 0 <= k < |score| && score[k].id == id
    {
      var i := 0;
      while i < |score|
        invariant 0 <= i <= |score|
        invariant forall k :: 0 <= k < i ==> score[k].id != id
      {
        if id == score[i].id {
          return true;
        }
        i := i + 1;
      }
      return false;
    }

    /** `stop`: clear the running flag. The wait for an in-flight pass is not modelled. */
    method Stop(blocking: bool)
      modifies this`isRunning
      ensures !isRunning
    {
      isRunning := false;
    }

    /** Carry out one call a predicate makes into the engine. */
    method RunEffect(e: Effect)
      modifies this`score, this`isRunning
      ensures score == if e.ScoreCall? then Apply(old(score), e.op) else old(score)
      ensures isRunning == (old(isRunning) && e != StopRequest)
    {
      match e {
        case ScoreCall(Upsert(id, value, reason)) =>
          AddScore(id, value, reason);
        case ScoreCall(Remove(id)) =>
          var _ := RemoveScore(id);
        case StopRequest =>
          Stop(false);
      }
    }

    /** Carry out the calls one predicate makes into the engine, in order. */
    method RunEffects(effects: seq<Effect>)
      modifies this`score, this`isRunning
      ensures score == Replay(old(score), LedgerOps(effects))
      ensures isRunning == (old(isRunning) && StopRequest !in effects)
      ensures old(Valid()) ==> Valid()
    {
      var j := 0;
      while j < |effects|
        invariant 0 <= j <= |effects|
        invariant score == Replay(old(score), LedgerOps(effects[..j]))
        invariant isRunning == (old(isRunning) && StopRequest !in effects[..j])
      {
        LedgerOpsStep(effects, j);
        assert effects[..j + 1] == effects[..j] + [effects[j]];
        if effects[j].ScoreCall? {
          ReplayStep(old(score), LedgerOps(effects[..j]), effects[j].op);
        } else {
          assert LedgerOps(effects[..j + 1]) == LedgerOps(effects[..j]);
        }
        RunEffect(effects[j]);
        j := j + 1;
      }
      assert effects[..j] == effects;
      if old(Valid()) {
        ReplayKeepsDistinct(old(score), LedgerOps(effects));
      }
    }

    /**
     * `handle_vulnerability`: hand the predicate of `entry` its argument,
     * run it, and store what it returns as the new completed flag.
     */
    method HandleVulnerability(entry: VulnEntry, reply: Reply) returns (updated: VulnEntry, arg: Context)
      modifies this`score, this`isRunning
      ensures updated == VulnEntry(entry.cond, Outcome(entry.cond, reply.verdict))
      ensures arg == ContextFor(entry.cond, reply.fileOpens)
      ensures score == Replay(old(score), LedgerOps(reply.effects))
      ensures isRunning == (old(isRunning) && StopRequest !in reply.effects)
    {
      match entry.cond {
        case FileVuln(_) =>
          arg := FileArg(reply.fileOpens);
        case AppVuln(app) =>
          arg := AppArg(app);
        case UserVuln(user) =>
          arg := UserArg(user.name);
        case CustomVuln(_) =>
          arg := NoArg;
      }
      RunEffects(reply.effects);
      updated := VulnEntry(entry.cond, Outcome(entry.cond, reply.verdict));
    }

    /**
     * The loop of `update`: dispatch every entry once, in order, whatever its
     * completed flag (both arms of the review test dispatch). The test still
     * computes `stepIter % completeFreq` for every entry, so a zero
     * `completeFreq` is fatal once there is an entry.
     */
    method Sweep(replies: seq<Reply>) returns (calls: seq<Context>)
      requires |replies| == |vulns|
      requires |vulns| > 0 ==> completeFreq != 0
      modifies this`score, this`isRunning, this`vulns
      ensures vulns == Judge(old(vulns), replies)
      ensures calls == Dispatch(Conds(old(vulns)), replies)
      ensures score == Replay(old(score), PassOps(replies))
      ensures isRunning == (old(isRunning) && !StopAsked(replies))
    {
      calls := [];
      ghost var v0, score0, run0 := vulns, score, isRunning;
      var i := 0;
      while i < |vulns|
        invariant 0 <= i <= |vulns| == |v0| == |replies|
        invariant |calls| == i
        invariant forall k :: 0 <= k < |vulns| ==>
          vulns[k] == if k < i then VulnEntry(v0[k].cond, Outcome(v0[k].cond, replies[k].verdict)) else v0[k]
        invariant forall k :: 0 <= k < i ==> calls[k] == ContextFor(v0[k].cond, replies[k].fileOpens)
        invariant score == Replay(score0, PassOps(replies[..i]))
        invariant isRunning == (run0 && !StopAsked(replies[..i]))
      {
        var review := stepIter % completeFreq == 0 && vulns[i].completed;
        var updated, arg := HandleVulnerability(vulns[i], replies[i]);
        vulns := vulns[i := updated];
        calls := calls + [arg];
        PassStep(score0, replies, i);
        i := i + 1;
      }
      assert replies[..i] == replies;
      assert vulns == Judge(v0, replies);
      assert calls == Dispatch(Conds(v0), replies);
    }

    /**
     * `update`: one pass over the registry with the execution flag raised.
     * `calls` lists the argument each predicate was handed.
     */
    method Update(replies: seq<Reply>) returns (calls: seq<Context>)
      requires |replies| == |vulns|
      requires |vulns| > 0 ==> completeFreq != 0
      modifies this`score, this`isRunning, this`vulns, this`inExecution
      ensures vulns == Judge(old(vulns), replies)
      ensures calls == Dispatch(Conds(old(vulns)), replies)
      ensures forall k :: 0 <= k < |vulns| && vulns[k].cond == CustomVuln(true) ==> !vulns[k].completed
      ensures forall k :: 0 <= k < |vulns| && vulns[k].cond != CustomVuln(true) ==> vulns[k].completed == replies[k].verdict
      ensures forall k :: 0 <= k < |calls| && old(vulns)[k].cond.FileVuln? ==> calls[k] == FileArg(replies[k].fileOpens)
      ensures forall k :: 0 <= k < |calls| && old(vulns)[k].cond.AppVuln? ==> calls[k] == AppArg(old(vulns)[k].cond.app)
      ensures forall k :: 0 <= k < |calls| && old(vulns)[k].cond.UserVuln? ==> calls[k] == UserArg(old(vulns)[k].cond.user.name)
      ensures forall k :: 0 <= k < |calls| && old(vulns)[k].cond.CustomVuln? ==> calls[k] == NoArg
      ensures score == Replay(old(score), PassOps(replies))
      ensures isRunning == (old(isRunning) && !StopAsked(replies))
      ensures !inExecution
      ensures old(Valid()) ==> Valid()
    {
      inExecution := true;
      ghost var v0, score0 := vulns, score;
      calls := Sweep(replies);
      JudgeFlags(v0, replies);
      DispatchArgs(Conds(v0), replies);
      if old(Valid()) {
        ReplayKeepsDistinct(score0, PassOps(replies));
      }
      inExecution := false;
    }

    /**
     * One iteration of the loop in `enter`: a pass of `update`, then the pause
     * of `1 / incompleteFreq` seconds. Its length is not modelled, but with a
     * zero frequency it is infinite, and building the pause panics.
     * The ghost parameters carry the run so far: the registry `v0` and the
     * ledger `score0` it began with and the ledger calls `done` made since.
     */
    method Tick(pass: seq<Reply>, ghost v0: seq<VulnEntry>, ghost score0: seq<ScoreEntry>, ghost done: seq<Op>)
      returns (calls: seq<Context>, panicked: bool)
      requires |pass| == |vulns|
      requires |vulns| > 0 ==> completeFreq != 0
      requires |vulns| == |v0| && Conds(vulns) == Conds(v0)
      requires score == Replay(score0, done)
      modifies this`score, this`isRunning, this`vulns, this`inExecution
      ensures vulns == Judge(old(vulns), pass) == Judge(v0, pass)
      ensures Conds(vulns) == Conds(v0)
      ensures calls == Dispatch(Conds(v0), pass)
      ensures score == Replay(old(score), PassOps(pass)) == Replay(score0, done + PassOps(pass))
      ensures isRunning == (old(isRunning) && !StopAsked(pass))
      ensures !inExecution
      ensures panicked <==> incompleteFreq == 0
    {
      ghost var vPrev := vulns;
      calls := Update(pass);
      JudgeConds(vPrev, v0, pass);
      ReplayAppend(score0, done, PassOps(pass));
      panicked := incompleteFreq == 0;
    }

    /**
     * `enter`: set the running flag and call `Update` while it stays set.
     * `passes` holds the environment's replies for the passes it answers;
     * the loop also ends when they run out. `log` holds, per pass run, the
     * arguments handed out. The pause after a pass lasts `1 / incompleteFreq`
     * seconds as a float; with a zero frequency that is infinite and building
     * the duration panics, so the first pass is also the last and `panicked`
     * reports the abort.
     */
    method Enter(passes: seq<seq<Reply>>) returns (log: seq<seq<Context>>, panicked: bool)
      requires Fits(Conds(vulns), passes)
      requires |vulns| > 0 ==> completeFreq != 0
      modifies this`score, this`isRunning, this`vulns, this`inExecution
      ensures |log| <= |passes|
      ensures panicked <==> incompleteFreq == 0 && |passes| > 0
      ensures panicked ==> |log| == 1
      ensures Conds(vulns) == Conds(old(vulns))
      ensures log == DispatchRun(Conds(vulns), passes, |log|)
      ensures isRunning == NoneStop(passes, |log|)
      ensures |log| > 0 ==> NoneStop(passes, |log| - 1)
      ensures !panicked && |log| < |passes| ==> !isRunning
      ensures score == Replay(old(score), RunOps(passes, |log|))
      ensures |log| == 0 ==> vulns == old(vulns)
      ensures |log| > 0 ==> vulns == Judge(old(vulns), passes[|log| - 1]) && !inExecution
      ensures old(Valid()) ==> Valid()
    {
      ghost var v0, score0, ops := vulns, score, [];
      ghost var conds := Conds(vulns);
      isRunning := true;
      log := [];
      panicked := false;
      var t := 0;
      while t < |passes| && isRunning && !panicked
        invariant t == |log| <= |passes|
        invariant panicked <==> incompleteFreq == 0 && t > 0
        invariant incompleteFreq == 0 ==> t <= 1
        invariant |vulns| == |v0| && Conds(vulns) == conds
        invariant log == DispatchRun(conds, passes, t)
        invariant isRunning == NoneStop(passes, t)
        invariant t > 0 ==> NoneStop(passes, t - 1)
        invariant ops == RunOps(passes, t) && score == Replay(score0, ops)
        invariant t == 0 ==> vulns == v0
        invariant t > 0 ==> vulns == Judge(v0, passes[t - 1]) && !inExecution
        decreases |passes| - t
      {
        var calls;
        calls, panicked := Tick(passes[t], v0, score0, ops);
        ops := ops + PassOps(passes[t]);
        log := log + [calls];
        t := t + 1;
      }
      if old(Valid()) {
        ReplayKeepsDistinct(score0, ops);
      }
    }
  }
}
