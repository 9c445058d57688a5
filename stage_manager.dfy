/**
 * StageManager: the process-wide registry from stage name to stage. A stage is
 * abstract here: whether it has been shut down, how many tasks it has queued,
 * and whether its shutdown() throws (an executor refusing the caller's access).
 * The static HashMap is the `stages` field of one `StageManager` object; a
 * null stage may be registered, as HashMap allows null values.
 */
module Stages {
  import opened Wrappers

  class Stage {
    var isShutdown: bool
    /** getTaskCount(): the pending tasks (a Java long). */
    var taskCount: int
    /** shutdown() throws SecurityException for this stage. */
    const shutdownFails: bool

    constructor(taskCount: int, shutdownFails: bool)
      ensures !isShutdown && this.taskCount == taskCount && this.shutdownFails == shutdownFails
    {
      isShutdown := false;
      this.taskCount := taskCount;
      this.shutdownFails := shutdownFails;
    }

    /** shutdown(): the stage is shut down, or the exception leaves it as it was. */
    method Shutdown() returns (r: Result<()>)
      modifies this
      ensures taskCount == old(taskCount)
      ensures shutdownFails ==> r == Err(RuntimeFailure(Security)) && isShutdown == old(isShutdown)
      ensures !shutdownFails ==> r.Ok? && isShutdown
    {
      if shutdownFails {
        return Err(RuntimeFailure(Security));
      }
      isShutdown := true;
      return Ok(());
    }
  }

  class StageManager {
    /** stageQueues_: stage name -> stage (possibly null). */
    var stages: map<string, Stage?>

    constructor()
      ensures stages == map[]
    {
      stages := map[];
    }

    /** getStage(String): the stage registered under `name`, null when there is none. */
    function GetStage(name: string): (r: Stage?)
      reads this
      ensures r != null ==> name in stages && stages[name] == r
      ensures name !in stages ==> r == null
    {
      if name in stages then stages[name] else null
    }

    /** The non-null registered stages. */
    function Registered(): set<Stage>
      reads this
    {
      set n | n in stages && stages[n] != null :: stages[n]
    }

    /** registerStage(String, IStage): `name` now yields `stage`, replacing any
        earlier stage without shutting it down; every other name is unaffected. */
    method RegisterStage(name: string, stage: Stage?)
      modifies this
      ensures GetStage(name) == stage
      ensures forall n :: n != name ==> GetStage(n) == old(GetStage(n))
      ensures stages.Keys == old(stages.Keys) + {name}
    {
      stages := stages[name := stage];
    }

    /** deregisterStage(String): `name` yields null; every other name is
        unaffected and the stage is not shut down. */
    method DeregisterStage(name: string)
      modifies this
      ensures GetStage(name) == null
      ensures forall n :: n != name ==> GetStage(n) == old(GetStage(n))
      ensures stages.Keys == old(stages.Keys) - {name}
    {
      stages := stages - {name};
    }

    /** getStageTaskCount(String): the stage's pending task count; a name with
        no stage is a null dereference. */
    function GetStageTaskCount(name: string): (r: Result<int>)
      reads this, GetStage(name)
      ensures r.Err? <==> GetStage(name) == null
      ensures r.Err? ==> r.error == RuntimeFailure(NullPointer)
      ensures r.Ok? ==> r.value == GetStage(name).taskCount
    {
      var stage := GetStage(name);
      if stage == null then Err(RuntimeFailure(NullPointer)) else Ok(stage.taskCount)
    }

    /** shutdown(): shutdown() on every registered stage in the map's iteration
        order, with nothing caught: a null stage or a stage whose shutdown throws
        ends the loop with that exception. The map is not changed. */
    method Shutdown() returns (r: Result<()>)
      modifies Registered()
      ensures r.Ok? <==> forall n :: n in stages ==> stages[n] != null && !stages[n].shutdownFails
      ensures r.Ok? ==> forall n :: n in stages ==> stages[n].isShutdown
      ensures r.Err? ==> r.error == RuntimeFailure(NullPointer) || r.error == RuntimeFailure(Security)
      ensures forall s :: s in Registered() && old(s.isShutdown) ==> s.isShutdown
    {
      var todo := stages.Keys;
      while todo != {}
        invariant todo <= stages.Keys
        invariant forall n :: n in stages && n !in todo ==>
          stages[n] != null && !stages[n].shutdownFails && stages[n].isShutdown
        invariant forall s :: s in Registered() && old(s.isShutdown) ==> s.isShutdown
        decreases todo
      {
        ghost var some := PickMember(todo);
        var name :| name in todo;
        var stage := stages[name];
        if stage == null {
          return Err(RuntimeFailure(NullPointer));
        }
        var done := stage.Shutdown();
        if done.Err? {
          return done;
        }
        todo := todo - {name};
      }
      return Ok(());
    }
  }
}
