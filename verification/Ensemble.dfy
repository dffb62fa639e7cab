/** Seed exchange of an ensemble: each fuzzer's front end starts copies between its
    own queues and the shared ones and does not wait for them, so that the copies of
    all fuzzers go on at the same time, file by file. */
module Ensemble {
  import opened Words
  import opened Programs

  type Name = string
  type Files = map<Name, seq<byte>>

  datatype Dir = Pull(owner: nat) | Push(owner: nat) | Crashes(owner: nat) | GlobalQueue | GlobalCrashes

  /** One rsync process; `todo` is what is left of the list of files it made. */
  datatype Job = Job(src: Dir, dest: Dir, excludes: set<Name>, todo: Option<set<Name>>)

  datatype State = State(dirs: map<Dir, Files>, jobs: seq<Job>) {
    function At(d: Dir): Files {
      if d in dirs then dirs[d] else map[]
    }
  }

  datatype Action =
    | Find(dir: Dir, name: Name, content: seq<byte>)        // a fuzzer stores a new file
    | Spawn(src: Dir, dest: Dir, excludes: set<Name>)       // _sync_seeds
    | List(job: nat)                                        // rsync makes its list of files
    | Copy(job: nat, name: Name)                            // rsync handles one of them

  predicate Enabled(s: State, a: Action) {
    match a
    case Find(dir, name, _) => !dir.GlobalQueue? && !dir.GlobalCrashes? && name !in s.At(dir)
    case Spawn(_, _, _) => true
    case List(j) => j < |s.jobs| && s.jobs[j].todo.None?
    case Copy(j, name) => j < |s.jobs| && s.jobs[j].todo.Some? && name in s.jobs[j].todo.value
  }

  /** `--ignore-existing`: a file of that name in the destination stays. */
  function Copied(s: State, job: Job, name: Name): map<Dir, Files> {
    if name in s.At(job.dest) || name !in s.At(job.src) then s.dirs
    else s.dirs[job.dest := s.At(job.dest)[name := s.At(job.src)[name]]]
  }

  function Step(s: State, a: Action): State
    requires Enabled(s, a)
  {
    match a
    case Find(dir, name, content) => s.(dirs := s.dirs[dir := s.At(dir)[name := content]])
    case Spawn(src, dest, excludes) => s.(jobs := s.jobs + [Job(src, dest, excludes, None)])
    case List(j) =>
      var job := s.jobs[j];
      s.(jobs := s.jobs[j := job.(todo := Some(s.At(job.src).Keys - job.excludes))])
    case Copy(j, name) =>
      var job := s.jobs[j];
      State(Copied(s, job, name), s.jobs[j := job.(todo := Some(job.todo.value - {name}))])
  }

  /** A run: the state after some actions, if each was possible in its turn. */
  function Ran(s: State, actions: seq<Action>): Option<State> {
    if actions == [] then Some(s)
    else
      var before := Ran(s, actions[..|actions| - 1]);
      var last := actions[|actions| - 1];
      if before.None? || !Enabled(before.value, last) then None else Some(Step(before.value, last))
  }

  // ----- the front end

  /** The directories as every front end sees them. */
  class World {
    var state: State

    /** _sync_seeds: the copy is started, not awaited. */
    method SyncSeeds(src: Dir, dest: Dir, excludes: set<Name>)
      modifies this
      ensures state == Step(old(state), Spawn(src, dest, excludes))
    {
      state := state.(jobs := state.jobs + [Job(src, dest, excludes, None)]);
    }

    /** ensemble: one cycle of fuzzer `i`.  It copies nothing itself; once its four
        copies are completed, whatever else went on, a cycle has been done. */
    method Ensemble(i: nat, excludes: set<Name>)
      modifies this
      ensures Ran(old(state), Starts(i, excludes)) == Some(state) && state.dirs == old(state).dirs
      ensures forall actions ::
        Ran(state, actions).Some? && CompletedFrom(Ran(state, actions).value, |old(state).jobs|)
        ==> DidCycle(old(state), Ran(state, actions).value, i, excludes)
    {
      ghost var before := state;
      SyncSeeds(Pull(i), Push(i), excludes);
      SyncSeeds(Push(i), GlobalQueue, excludes);
      SyncSeeds(Crashes(i), GlobalCrashes, excludes);
      SyncSeeds(GlobalQueue, Push(i), excludes);
      assert state.jobs == before.jobs + Cycle(i, excludes);
      CycleStarts(before, i, excludes);
      forall actions | Ran(state, actions).Some? && CompletedFrom(Ran(state, actions).value, |before.jobs|)
        ensures DidCycle(before, Ran(state, actions).value, i, excludes)
      {
        CycleIsDone(before, state, actions, i, excludes);
      }
    }
  }

  /** The copies of a cycle. */
  function Cycle(i: nat, excludes: set<Name>): seq<Job> {
    [Job(Pull(i), Push(i), excludes, None), Job(Push(i), GlobalQueue, excludes, None),
     Job(Crashes(i), GlobalCrashes, excludes, None), Job(GlobalQueue, Push(i), excludes, None)]
  }

  function Starts(i: nat, excludes: set<Name>): seq<Action> {
    var jobs := Cycle(i, excludes);
    [Spawn(jobs[0].src, jobs[0].dest, excludes), Spawn(jobs[1].src, jobs[1].dest, excludes),
     Spawn(jobs[2].src, jobs[2].dest, excludes), Spawn(jobs[3].src, jobs[3].dest, excludes)]
  }

  lemma CycleStarts(s: State, i: nat, excludes: set<Name>)
    ensures Ran(s, Starts(i, excludes)) == Some(s.(jobs := s.jobs + Cycle(i, excludes)))
  {
    var starts, cycle := Starts(i, excludes), Cycle(i, excludes);
    assert starts[..0] == [] && s.jobs + cycle[..0] == s.jobs;
    for k := 0 to 4
      invariant Ran(s, starts[..k]) == Some(s.(jobs := s.jobs + cycle[..k]))
    {
      RanOneMore(s, starts[..k], starts[k]);
      assert starts[..k + 1] == starts[..k] + [starts[k]];
      assert s.jobs + cycle[..k + 1] == s.jobs + cycle[..k] + [cycle[k]];
    }
    assert starts[..4] == starts && cycle[..4] == cycle;
  }

  /** The four copies from number `k` on are completed. */
  ghost predicate CompletedFrom(s: State, k: nat) {
    forall j :: k <= j < k + 4 ==> Completed(s, j)
  }

  lemma CycleIsDone(before: State, s: State, actions: seq<Action>, i: nat, excludes: set<Name>)
    requires s.jobs == before.jobs + Cycle(i, excludes)
    requires Ran(s, actions).Some? && CompletedFrom(Ran(s, actions).value, |before.jobs|)
    ensures DidCycle(before, Ran(s, actions).value, i, excludes)
  {
    var a := |before.jobs|;
    CopyIsDone(before, s, actions, a, Cycle(i, excludes)[0]);
    CopyIsDone(before, s, actions, a + 1, Cycle(i, excludes)[1]);
    CopyIsDone(before, s, actions, a + 2, Cycle(i, excludes)[2]);
    CopyIsDone(before, s, actions, a + 3, Cycle(i, excludes)[3]);
  }

  lemma CopyIsDone(before: State, s: State, actions: seq<Action>, j: nat, job: Job)
    requires |before.jobs| <= j < |s.jobs| && s.jobs[j] == job
    requires Ran(s, actions).Some? && Completed(Ran(s, actions).value, j)
    ensures Did(before, Ran(s, actions).value, j, job)
  {
    JobIsFixed(s, actions, j);
  }

  // ----- nothing is lost, and nothing is made up

  /** Every file is still there, with its content. */
  ghost predicate Keeps(s: State, t: State) {
    forall d: Dir, n: Name :: n in s.At(d) ==> n in t.At(d) && t.At(d)[n] == s.At(d)[n]
  }

  lemma StepKeeps(s: State, a: Action)
    requires Enabled(s, a)
    ensures Keeps(s, Step(s, a))
  {
  }

  /** No run removes or overwrites a file. */
  lemma {:induction false} RunKeeps(s: State, actions: seq<Action>)
    requires Ran(s, actions).Some?
    ensures Keeps(s, Ran(s, actions).value)
  {
    if actions != [] {
      var n := |actions| - 1;
      RunKeeps(s, actions[..n]);
      StepKeeps(Ran(s, actions[..n]).value, actions[n]);
    }
  }

  ghost predicate Found(actions: seq<Action>, name: Name, content: seq<byte>) {
    exists k :: 0 <= k < |actions| && actions[k].Find? && actions[k].name == name && actions[k].content == content
  }

  ghost predicate Stored(s: State, name: Name, content: seq<byte>) {
    exists d: Dir :: name in s.At(d) && s.At(d)[name] == content
  }

  /** Every file anywhere, name and content, was there at the start or was found by a
      fuzzer. */
  lemma {:induction false} RunHasOrigins(s: State, actions: seq<Action>, name: Name, content: seq<byte>)
    requires Ran(s, actions).Some? && Stored(Ran(s, actions).value, name, content)
    ensures Stored(s, name, content) || Found(actions, name, content)
  {
    if actions != [] {
      var n := |actions| - 1;
      var before, last := Ran(s, actions[..n]).value, actions[n];
      var t := Step(before, last);
      var d: Dir :| name in t.At(d) && t.At(d)[name] == content;
      if last.Find? && last.name == name && last.content == content {
        assert Found(actions, name, content);
      } else {
        StepHasOrigin(before, last, d, name);
        RunHasOrigins(s, actions[..n], name, content);
        if Found(actions[..n], name, content) {
          var k :| 0 <= k < n && actions[..n][k].Find? && actions[..n][k].name == name
            && actions[..n][k].content == content;
          assert actions[k] == actions[..n][k];
        }
      }
    }
  }

  lemma StepHasOrigin(s: State, a: Action, d: Dir, name: Name)
    requires Enabled(s, a) && name in Step(s, a).At(d)
    requires !(a.Find? && a.name == name && a.content == Step(s, a).At(d)[name])
    ensures Stored(s, name, Step(s, a).At(d)[name])
  {
    var content := Step(s, a).At(d)[name];
    if name in s.At(d) {
      assert s.At(d)[name] == content;
    } else if a.Copy? {
      var src := s.jobs[a.job].src;
      assert name in s.At(src) && s.At(src)[name] == content;
    }
  }

  // ----- where files come from

  /** Lists leave out what their copies exclude. */
  ghost predicate ListsExclude(s: State) {
    forall j :: 0 <= j < |s.jobs| && s.jobs[j].todo.Some? ==> s.jobs[j].todo.value !! s.jobs[j].excludes
  }

  ghost predicate FoundIn(actions: seq<Action>, d: Dir, name: Name) {
    exists k :: 0 <= k < |actions| && actions[k].Find? && actions[k].dir == d && actions[k].name == name
  }

  /** Some copy to `d` does not exclude the file, and has it in its source. */
  ghost predicate Copies(t: State, d: Dir, name: Name) {
    exists j :: 0 <= j < |t.jobs| && t.jobs[j].dest == d && name !in t.jobs[j].excludes && name in t.At(t.jobs[j].src)
  }

  lemma ExcludingStays(s: State, a: Action)
    requires Enabled(s, a) && ListsExclude(s)
    ensures ListsExclude(Step(s, a))
  {
  }

  lemma {:induction false} RunExcludes(s: State, actions: seq<Action>)
    requires Ran(s, actions).Some? && ListsExclude(s)
    ensures ListsExclude(Ran(s, actions).value)
  {
    if actions != [] {
      var front, last := actions[..|actions| - 1], actions[|actions| - 1];
      RunExcludes(s, front);
      ExcludingStays(Ran(s, front).value, last);
    }
  }

  /** A file that is new in a directory was found there, or comes by a copy that does
      not exclude it, from where it still is. */
  lemma {:induction false} FilesArrive(s: State, actions: seq<Action>, d: Dir, name: Name)
    requires Ran(s, actions).Some? && ListsExclude(s)
    requires name !in s.At(d) && name in Ran(s, actions).value.At(d)
    ensures FoundIn(actions, d, name) || Copies(Ran(s, actions).value, d, name)
  {
    var front, last := actions[..|actions| - 1], actions[|actions| - 1];
    var before := Ran(s, front).value;
    RunExcludes(s, front);
    if name in before.At(d) {
      FilesArrive(s, front, d, name);
      if FoundIn(front, d, name) {
        var k :| 0 <= k < |front| && front[k].Find? && front[k].dir == d && front[k].name == name;
        assert actions[k] == front[k];
      } else {
        CopiesStay(before, last, d, name);
      }
    } else {
      Arrives(before, last, d, name);
    }
  }

  lemma CopiesStay(s: State, last: Action, d: Dir, name: Name)
    requires Enabled(s, last) && Copies(s, d, name)
    ensures Copies(Step(s, last), d, name)
  {
    var j :| 0 <= j < |s.jobs| && s.jobs[j].dest == d && name !in s.jobs[j].excludes && name in s.At(s.jobs[j].src);
    StepKeeps(s, last);
    assert Step(s, last).jobs[j].dest == d;
  }

  lemma Arrives(s: State, last: Action, d: Dir, name: Name)
    requires Enabled(s, last) && ListsExclude(s) && name !in s.At(d) && name in Step(s, last).At(d)
    ensures (last.Find? && last.dir == d && last.name == name) || Copies(Step(s, last), d, name)
  {
    if last.Copy? {
      StepKeeps(s, last);
      var t := Step(s, last);
      assert t.jobs[last.job].dest == d && name !in t.jobs[last.job].excludes && name in t.At(t.jobs[last.job].src);
    }
  }

  /** The four copies of some fuzzer's cycle. */
  ghost predicate Route(src: Dir, dest: Dir) {
    exists i: nat {:trigger Pull(i)} :: (src, dest) in {
      (Pull(i), Push(i)), (Push(i), GlobalQueue), (Crashes(i), GlobalCrashes), (GlobalQueue, Push(i))
    }
  }

  /** Every copy is one of a cycle. */
  ghost predicate OnRoute(s: State) {
    forall j :: 0 <= j < |s.jobs| ==> Route(s.jobs[j].src, s.jobs[j].dest)
  }

  ghost predicate SpawnsRoutes(actions: seq<Action>) {
    forall k :: 0 <= k < |actions| && actions[k].Spawn? ==> Route(actions[k].src, actions[k].dest)
  }

  /** The queue directories and the crash directories. */
  predicate ForCrashes(d: Dir) {
    d.Crashes? || d.GlobalCrashes?
  }

  lemma CycleIsRouted(i: nat, excludes: set<Name>)
    ensures SpawnsRoutes(Starts(i, excludes))
    ensures forall k :: 0 <= k < 4 ==> Cycle(i, excludes)[k].excludes == excludes && Cycle(i, excludes)[k].todo.None?
  {
    var p := Pull(i);
  }

  lemma RoutesKeepApart(src: Dir, dest: Dir)
    requires Route(src, dest)
    ensures ForCrashes(src) <==> ForCrashes(dest)
    ensures dest.GlobalCrashes? ==> src.Crashes?
    ensures dest.GlobalQueue? ==> src.Push?
    ensures dest.Push? ==> src == Pull(dest.owner) || src == GlobalQueue
  {
  }

  lemma {:induction false} StaysOnRoute(s: State, actions: seq<Action>)
    requires Ran(s, actions).Some? && OnRoute(s) && SpawnsRoutes(actions)
    ensures OnRoute(Ran(s, actions).value)
  {
    if actions != [] {
      var front, last := actions[..|actions| - 1], actions[|actions| - 1];
      assert forall k :: 0 <= k < |front| ==> front[k] == actions[k];
      StaysOnRoute(s, front);
      assert last.Spawn? ==> Route(last.src, last.dest);
    }
  }

  /** The file was in a directory of the kind at the start, or was found in one. */
  ghost predicate FromKind(s: State, actions: seq<Action>, crashes: bool, name: Name) {
    exists d: Dir :: ForCrashes(d) == crashes && (name in s.At(d) || FoundIn(actions, d, name))
  }

  /** Where all copies are those of cycles, crashes come from crash directories, seeds
      from queues, and never one from the other. */
  lemma {:induction false} KindsStayApart(s: State, actions: seq<Action>, d: Dir, name: Name)
    requires Ran(s, actions).Some? && OnRoute(s) && SpawnsRoutes(actions) && name in Ran(s, actions).value.At(d)
    ensures FromKind(s, actions, ForCrashes(d), name)
  {
    if actions != [] {
      var front, last := actions[..|actions| - 1], actions[|actions| - 1];
      assert forall k :: 0 <= k < |front| ==> front[k] == actions[k];
      var before := Ran(s, front).value;
      StaysOnRoute(s, front);
      if name in before.At(d) {
        KindsStayApart(s, front, d, name);
        FromKindLater(s, front, actions, ForCrashes(d), name);
      } else if last.Find? {
        assert FoundIn(actions, d, name);
      } else {
        var job := before.jobs[last.job];
        RoutesKeepApart(job.src, job.dest);
        KindsStayApart(s, front, job.src, name);
        FromKindLater(s, front, actions, ForCrashes(d), name);
      }
    }
  }

  lemma FromKindLater(s: State, front: seq<Action>, actions: seq<Action>, crashes: bool, name: Name)
    requires front <= actions && FromKind(s, front, crashes, name)
    ensures FromKind(s, actions, crashes, name)
  {
    var d: Dir :| ForCrashes(d) == crashes && (name in s.At(d) || FoundIn(front, d, name));
    if FoundIn(front, d, name) {
      var k :| 0 <= k < |front| && front[k].Find? && front[k].dir == d && front[k].name == name;
      assert actions[k] == front[k];
    }
  }

  /** A new file in a shared directory is in some fuzzer's own: a crash in its crash
      directory, a seed in its push queue. */
  lemma SharedComesFromOwn(s: State, actions: seq<Action>, name: Name)
    requires Ran(s, actions).Some? && ListsExclude(s) && OnRoute(s) && SpawnsRoutes(actions)
    ensures var t := Ran(s, actions).value;
      && (name in t.At(GlobalCrashes) && name !in s.At(GlobalCrashes) ==> exists i: nat :: name in t.At(Crashes(i)))
      && (name in t.At(GlobalQueue) && name !in s.At(GlobalQueue) ==> exists i: nat :: name in t.At(Push(i)))
  {
    var t := Ran(s, actions).value;
    StaysOnRoute(s, actions);
    if name in t.At(GlobalCrashes) && name !in s.At(GlobalCrashes) {
      ArrivesByCopy(s, actions, GlobalCrashes, name);
    }
    if name in t.At(GlobalQueue) && name !in s.At(GlobalQueue) {
      ArrivesByCopy(s, actions, GlobalQueue, name);
    }
  }

  lemma ArrivesByCopy(s: State, actions: seq<Action>, d: Dir, name: Name)
    requires Ran(s, actions).Some? && ListsExclude(s) && OnRoute(s) && SpawnsRoutes(actions)
    requires d.GlobalCrashes? || d.GlobalQueue?
    requires name !in s.At(d) && name in Ran(s, actions).value.At(d)
    ensures var t := Ran(s, actions).value;
      if d.GlobalCrashes? then exists i: nat :: name in t.At(Crashes(i)) else exists i: nat :: name in t.At(Push(i))
  {
    var t := Ran(s, actions).value;
    FilesArrive(s, actions, d, name);
    NeverFoundThere(s, actions, d, name);
    StaysOnRoute(s, actions);
    var j :| 0 <= j < |t.jobs| && t.jobs[j].dest == d && name !in t.jobs[j].excludes && name in t.At(t.jobs[j].src);
    RoutesKeepApart(t.jobs[j].src, d);
    assert name in t.At(t.jobs[j].src);
  }

  /** Fuzzers store nothing in the shared directories themselves. */
  lemma {:induction false} NeverFoundThere(s: State, actions: seq<Action>, d: Dir, name: Name)
    requires Ran(s, actions).Some? && (d.GlobalCrashes? || d.GlobalQueue?)
    ensures !FoundIn(actions, d, name)
  {
    if actions != [] {
      var front, last := actions[..|actions| - 1], actions[|actions| - 1];
      assert forall k :: 0 <= k < |front| ==> front[k] == actions[k];
      NeverFoundThere(s, front, d, name);
      assert Enabled(Ran(s, front).value, last);
    }
  }

  // ----- delivery

  ghost predicate Completed(s: State, j: nat) {
    j < |s.jobs| && s.jobs[j].todo == Some({})
  }

  /** A copy that has not made its list, still lists the file, or has delivered it. */
  ghost predicate Owes(s: State, j: nat, name: Name) {
    j < |s.jobs| && name !in s.jobs[j].excludes ==>
      s.jobs[j].todo.None? || name in s.jobs[j].todo.value || name in s.At(s.jobs[j].dest)
  }

  /** A copy begun after `s`. */
  ghost predicate Later(s: State, j: nat) {
    j < |s.jobs| ==> s.jobs[j].todo.None?
  }

  lemma StepOwes(s: State, a: Action, j: nat, name: Name)
    requires Enabled(s, a) && Owes(s, j, name) && (j < |s.jobs| ==> name in s.At(s.jobs[j].src))
    ensures Owes(Step(s, a), j, name)
    ensures j < |s.jobs| ==> Step(s, a).jobs[j] == s.jobs[j].(todo := Step(s, a).jobs[j].todo)
  {
    StepKeeps(s, a);
  }

  lemma {:induction false} JobIsFixed(s: State, actions: seq<Action>, j: nat)
    requires Ran(s, actions).Some?
    ensures |s.jobs| <= |Ran(s, actions).value.jobs|
    ensures j < |s.jobs| ==>
      Ran(s, actions).value.jobs[j] == s.jobs[j].(todo := Ran(s, actions).value.jobs[j].todo)
  {
    if actions != [] {
      JobIsFixed(s, actions[..|actions| - 1], j);
    }
  }

  lemma {:induction false} RunOwes(s: State, actions: seq<Action>, j: nat, src: Dir, name: Name)
    requires Ran(s, actions).Some? && Later(s, j) && name in s.At(src)
    requires j < |Ran(s, actions).value.jobs| ==> Ran(s, actions).value.jobs[j].src == src
    ensures Owes(Ran(s, actions).value, j, name)
  {
    if actions != [] {
      var front, last := actions[..|actions| - 1], actions[|actions| - 1];
      var before := Ran(s, front).value;
      RunKeeps(s, front);
      RunOwes(s, front, j, src, name);
      StepOwes(before, last, j, name);
    }
  }

  /** A copy that begins after a file is there, and is completed, has delivered it. */
  lemma CopyDelivers(s: State, actions: seq<Action>, j: nat, name: Name)
    requires Ran(s, actions).Some?
    requires var t := Ran(s, actions).value;
      Later(s, j) && Completed(t, j) && name in s.At(t.jobs[j].src) && name !in t.jobs[j].excludes
    ensures var t := Ran(s, actions).value; name in t.At(t.jobs[j].dest)
  {
    RunOwes(s, actions, j, Ran(s, actions).value.jobs[j].src, name);
  }

  /** Copy `j` is `job`, was started between the two states, and is completed. */
  ghost predicate Did(s: State, t: State, j: nat, job: Job) {
    |s.jobs| <= j && Completed(t, j) && t.jobs[j] == job.(todo := Some({}))
  }

  /** Between the two states, fuzzer `i` started the copies of a cycle, in their order
      but among others, and they are completed. */
  ghost predicate DidCycle(s: State, t: State, i: nat, excludes: set<Name>) {
    var jobs := Cycle(i, excludes);
    exists a: nat, b: nat, c: nat, d: nat :: a < b < c < d
      && Did(s, t, a, jobs[0]) && Did(s, t, b, jobs[1]) && Did(s, t, c, jobs[2]) && Did(s, t, d, jobs[3])
  }

  lemma CycleDelivers(s: State, actions: seq<Action>, i: nat, excludes: set<Name>, name: Name)
    requires Ran(s, actions).Some? && DidCycle(s, Ran(s, actions).value, i, excludes) && name !in excludes
    ensures var t := Ran(s, actions).value;
      && (name in s.At(Pull(i)) ==> name in t.At(Push(i)))
      && (name in s.At(Push(i)) ==> name in t.At(GlobalQueue))
      && (name in s.At(Crashes(i)) ==> name in t.At(GlobalCrashes))
      && (name in s.At(GlobalQueue) ==> name in t.At(Push(i)))
  {
    var t, jobs := Ran(s, actions).value, Cycle(i, excludes);
    var a: nat, b: nat, c: nat, d: nat :| a < b < c < d
      && Did(s, t, a, jobs[0]) && Did(s, t, b, jobs[1]) && Did(s, t, c, jobs[2]) && Did(s, t, d, jobs[3]);
    if name in s.At(Pull(i)) {
      CopyDelivers(s, actions, a, name);
    }
    if name in s.At(Push(i)) {
      CopyDelivers(s, actions, b, name);
    }
    if name in s.At(Crashes(i)) {
      CopyDelivers(s, actions, c, name);
    }
    if name in s.At(GlobalQueue) {
      CopyDelivers(s, actions, d, name);
    }
  }

  /** A file in a fuzzer's pull queue is in every receiver's push queue after two
      completed cycles of its owner and one of the receiver, whatever else goes on. */
  lemma SeedsArrive(s: State, first: seq<Action>, second: seq<Action>, third: seq<Action>, owner: nat, receiver: nat,
                    mine: set<Name>, theirs: set<Name>, name: Name)
    requires name in s.At(Pull(owner)) && name !in mine && name !in theirs
    requires Ran(s, first).Some? && DidCycle(s, Ran(s, first).value, owner, mine)
    requires var s1 := Ran(s, first).value;
      Ran(s1, second).Some? && DidCycle(s1, Ran(s1, second).value, owner, mine)
    requires var s2 := Ran(Ran(s, first).value, second).value;
      Ran(s2, third).Some? && DidCycle(s2, Ran(s2, third).value, receiver, theirs)
    ensures var s2 := Ran(Ran(s, first).value, second).value;
      name in Ran(s2, third).value.At(Push(receiver))
  {
    var s1 := Ran(s, first).value;
    var s2 := Ran(s1, second).value;
    CycleDelivers(s, first, owner, mine, name);
    CycleDelivers(s1, second, owner, mine, name);
    CycleDelivers(s2, third, receiver, theirs, name);
  }

  /** And it arrives with its content, if no two files of that name differ. */
  lemma ContentArrives(s: State, actions: seq<Action>, src: Dir, dest: Dir, name: Name)
    requires Ran(s, actions).Some? && name in s.At(src) && name in Ran(s, actions).value.At(dest)
    requires forall content :: Stored(s, name, content) || Found(actions, name, content) ==> content == s.At(src)[name]
    ensures Ran(s, actions).value.At(dest)[name] == s.At(src)[name]
  {
    var content := Ran(s, actions).value.At(dest)[name];
    assert Stored(Ran(s, actions).value, name, content);
    RunHasOrigins(s, actions, name, content);
  }

  lemma RanOneMore(s: State, actions: seq<Action>, a: Action)
    requires Ran(s, actions).Some? && Enabled(Ran(s, actions).value, a)
    ensures Ran(s, actions + [a]) == Some(Step(Ran(s, actions).value, a))
  {
    assert (actions + [a])[..|actions|] == actions;
  }

  // ----- when one cycle is enough

  /** A run goes on from where its first `k` actions left. */
  lemma {:induction false} RanSplit(s: State, actions: seq<Action>, k: nat)
    requires k <= |actions| && Ran(s, actions).Some?
    ensures Ran(s, actions[..k]).Some? && Ran(Ran(s, actions[..k]).value, actions[k..]) == Ran(s, actions)
    decreases |actions|
  {
    if k == |actions| {
      assert actions[..k] == actions && actions[k..] == [];
    } else {
      var n := |actions| - 1;
      RanSplit(s, actions[..n], k);
      assert actions[..n][..k] == actions[..k] && actions[..n][k..] + [actions[n]] == actions[k..];
      RanOneMore(Ran(s, actions[..k]).value, actions[..n][k..], actions[n]);
    }
  }

  /** No other copy than `b` brings the file to the shared queue. */
  ghost predicate OnlyCopy(t: State, actions: seq<Action>, b: nat, name: Name) {
    forall m: nat :: Copy(m, name) in actions && m < |t.jobs| && t.jobs[m].dest == GlobalQueue ==> m == b
  }

  /** One more action brings the file to the shared queue only if it is that copy of it. */
  lemma QueueStep(s: State, last: Action, b: nat, name: Name)
    requires Enabled(s, last) && name !in s.At(GlobalQueue)
    requires last.Copy? && last.name == name && s.jobs[last.job].dest == GlobalQueue ==> last.job == b
    ensures name in Step(s, last).At(GlobalQueue) ==> last == Copy(b, name) && name in s.jobs[b].todo.value
  {
  }

  lemma OnlyCopyFront(s: State, actions: seq<Action>, b: nat, name: Name)
    requires actions != [] && Ran(s, actions).Some? && OnlyCopy(Ran(s, actions).value, actions, b, name)
    ensures var (front, last) := (actions[..|actions| - 1], actions[|actions| - 1]);
      var before := Ran(s, front).value;
      && OnlyCopy(before, front, b, name)
      && (last.Copy? && last.name == name && before.jobs[last.job].dest == GlobalQueue ==> last.job == b)
  {
    var front, last := actions[..|actions| - 1], actions[|actions| - 1];
    var before, t := Ran(s, front).value, Ran(s, actions).value;
    forall m: nat | Copy(m, name) in front && m < |before.jobs| && before.jobs[m].dest == GlobalQueue
      ensures m == b
    {
      assert Copy(m, name) in actions && t.jobs[m].dest == GlobalQueue;
    }
    if last.Copy? && last.name == name && before.jobs[last.job].dest == GlobalQueue {
      assert last == Copy(last.job, name) && last in actions && t.jobs[last.job].dest == GlobalQueue;
    }
  }

  /** Before copy `b` makes its list, the file is not there. */
  lemma {:induction false} NotYet(s: State, actions: seq<Action>, b: nat, name: Name)
    requires Ran(s, actions).Some? && OnlyCopy(Ran(s, actions).value, actions, b, name)
    requires name !in s.At(GlobalQueue) && Later(Ran(s, actions).value, b)
    ensures name !in Ran(s, actions).value.At(GlobalQueue)
  {
    if actions != [] {
      var front, last := actions[..|actions| - 1], actions[|actions| - 1];
      OnlyCopyFront(s, actions, b, name);
      NotYet(s, front, b, name);
      QueueStep(Ran(s, front).value, last, b, name);
    }
  }

  /** Copy `b` made its list in state `l`: what it has in hand was there then, and so
      was the file if the copy has brought it to the shared queue. */
  ghost predicate TakenFrom(l: State, t: State, b: nat, name: Name) {
    && b < |l.jobs| && l.jobs[b].todo.None? && b < |t.jobs| && t.jobs[b].src == l.jobs[b].src
    && t.jobs[b].todo.Some? && t.jobs[b].todo.value <= l.At(l.jobs[b].src).Keys
    && (name in t.At(GlobalQueue) ==> name in l.At(l.jobs[b].src))
  }

  lemma TakenFirst(l: State, b: nat, name: Name)
    requires Enabled(l, List(b)) && name !in l.At(GlobalQueue)
    ensures TakenFrom(l, Step(l, List(b)), b, name)
  {
  }

  lemma TakenStep(l: State, s: State, last: Action, b: nat, name: Name)
    requires TakenFrom(l, s, b, name) && Enabled(s, last)
    requires last.Copy? && last.name == name && s.jobs[last.job].dest == GlobalQueue ==> last.job == b
    ensures TakenFrom(l, Step(s, last), b, name)
  {
    if name !in s.At(GlobalQueue) {
      QueueStep(s, last, b, name);
    }
  }

  lemma {:induction false} FromTheList(s: State, actions: seq<Action>, k: nat, b: nat, name: Name)
    requires k < |actions| && actions[k] == List(b) && Ran(s, actions).Some?
    requires OnlyCopy(Ran(s, actions).value, actions, b, name) && name !in s.At(GlobalQueue)
    ensures Ran(s, actions[..k]).Some?
    ensures TakenFrom(Ran(s, actions[..k]).value, Ran(s, actions).value, b, name)
    decreases |actions|
  {
    var n := |actions| - 1;
    var front, last := actions[..n], actions[n];
    var before := Ran(s, front).value;
    OnlyCopyFront(s, actions, b, name);
    if k == n {
      NotYet(s, front, b, name);
      TakenFirst(before, b, name);
    } else {
      assert front[..k] == actions[..k];
      FromTheList(s, front, k, b, name);
      TakenStep(Ran(s, actions[..k]).value, before, last, b, name);
    }
  }

  /** The second copy of a cycle brings a file to the shared queue exactly when it
      makes its list after the file is in the push queue. */
  lemma OneCycleIsEnoughExactly(s: State, actions: seq<Action>, k: nat, b: nat, owner: nat, excludes: set<Name>,
                                name: Name)
    requires Ran(s, actions).Some? && Did(s, Ran(s, actions).value, b, Cycle(owner, excludes)[1])
    requires k < |actions| && actions[k] == List(b) && name !in excludes
    requires name !in s.At(GlobalQueue) && OnlyCopy(Ran(s, actions).value, actions, b, name)
    ensures Ran(s, actions[..k]).Some?
    ensures name in Ran(s, actions).value.At(GlobalQueue) <==> name in Ran(s, actions[..k]).value.At(Push(owner))
  {
    FromTheList(s, actions, k, b, name);
    var listed := Ran(s, actions[..k]).value;
    if name in listed.At(Push(owner)) {
      RanSplit(s, actions, k);
      CopyDelivers(listed, actions[k..], b, name);
    }
  }

  /** One completed cycle of the owner is not enough: it can end with the file in its
      push queue but not in the shared queue. */
  lemma OneCycleIsNotEnough(name: Name, content: seq<byte>) returns (s: State, actions: seq<Action>)
    ensures Ran(s, actions).Some? && DidCycle(s, Ran(s, actions).value, 0, {})
    ensures name in s.At(Pull(0)) && name !in Ran(s, actions).value.At(GlobalQueue)
  {
    s := State(map[Pull(0) := map[name := content]], []);
    var none: set<Name> := {};
    actions := AllListed(s, name, none);
    RanOneMore(s, actions, Copy(0, name));
    var before := Ran(s, actions).value;
    actions := actions + [Copy(0, name)];
    assert Ran(s, actions) == Some(Step(before, Copy(0, name)));
    assert {name} - {name} == none;
    AllDone(s, Step(before, Copy(0, name)), none);
  }

  /** One copy makes its list. */
  lemma OneListed(s: State, actions: seq<Action>, j: nat, names: set<Name>)
    requires Ran(s, actions).Some? && j < |Ran(s, actions).value.jobs|
    requires var (t, job) := (Ran(s, actions).value, Ran(s, actions).value.jobs[j]);
      job.todo.None? && names == t.At(job.src).Keys - job.excludes
    ensures var t := Ran(s, actions).value;
      Ran(s, actions + [List(j)]) == Some(t.(jobs := t.jobs[j := t.jobs[j].(todo := Some(names))]))
  {
    RanOneMore(s, actions, List(j));
  }

  /** The later three copies make their lists first, and then the first one. */
  lemma AllListed(s: State, name: Name, none: set<Name>) returns (actions: seq<Action>)
    requires s.jobs == [] && s.dirs.Keys == {Pull(0)} && s.At(Pull(0)).Keys == {name} && none == {}
    ensures Ran(s, actions).Some? && Ran(s, actions).value.dirs == s.dirs && |Ran(s, actions).value.jobs| == 4
    ensures forall k :: 0 <= k < 4 ==>
      Ran(s, actions).value.jobs[k] == Cycle(0, none)[k].(todo := Some(if k == 0 then {name} else {}))
  {
    actions := Starts(0, none);
    CycleStarts(s, 0, none);
    assert s.jobs + Cycle(0, none) == Cycle(0, none);
    OneListed(s, actions, 1, {});
    actions := actions + [List(1)];
    OneListed(s, actions, 2, {});
    actions := actions + [List(2)];
    OneListed(s, actions, 3, {});
    actions := actions + [List(3)];
    OneListed(s, actions, 0, {name});
    actions := actions + [List(0)];
  }

  lemma AllDone(s: State, t: State, excludes: set<Name>)
    requires s.jobs == [] && |t.jobs| == 4
    requires forall k :: 0 <= k < 4 ==> t.jobs[k] == Cycle(0, excludes)[k].(todo := Some({}))
    ensures DidCycle(s, t, 0, excludes)
  {
    var jobs := Cycle(0, excludes);
    assert Did(s, t, 0, jobs[0]) && Did(s, t, 1, jobs[1]) && Did(s, t, 2, jobs[2]) && Did(s, t, 3, jobs[3]);
    assert 0 < 1 < 2 < 3;
  }
}
