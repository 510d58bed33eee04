/**
 * The web service around the forwarder: the configuration it holds, the
 * background worker it starts and stops, and the replies of its
 * endpoints. The asyncio task is abstracted to its state (running or
 * done) and its stop event to whether it is set.
 */
module Service {
  import opened Wrappers
  import C = Config

  /** Where the configuration would be persisted; reported by `/status`. */
  const ConfigFile := "imap_telegram_config.json"

  /**
   * A worker task running `imap_worker_loop` with the configuration it was
   * given; `raised` says it ended with an exception, which awaiting it
   * raises again.
   */
  datatype Task = Task(cfg: C.Config, done: bool, raised: bool)

  /** The `asyncio.Event` a worker polls to learn that it should stop. */
  datatype StopEvent = StopEvent(isSet: bool)

  /** The JSON body `{"status": ..., "message": ...}` of the POST endpoints. */
  datatype Reply = Reply(status: string, message: string)

  /** The JSON body of `GET /status`. */
  datatype Status = Status(configured: bool, workerRunning: bool, configFile: Option<string>)

  const ConfiguredReply := Reply("ok", "Configured and worker started.")
  const NotConfiguredReply := Reply("error", "Not configured yet. POST /configure first.")
  const StartedReply := Reply("ok", "Worker started.")
  const AlreadyRunningReply := Reply("ok", "Worker already running.")
  const StopReply := Reply("ok", "Worker stop requested.")

  /**
   * The module globals `config`, `_worker_task` and `_worker_stop_event`.
   * `workers` holds every task ever created, in order, and `task` is the
   * index of the one `_worker_task` refers to.
   */
  class Forwarder {
    var config: Option<C.Config>
    var workers: seq<Task>
    var task: Option<nat>
    var stopEvent: Option<StopEvent>

    /**
     * A task exists exactly when its stop event does, only once a
     * configuration is set, and every task other than the current one has
     * finished: at no time do two workers poll the mailbox. A task that
     * raised has finished.
     */
    ghost predicate Valid()
      reads this
    {
      (task.Some? ==> task.value < |workers| && config.Some?)
      && (task.Some? <==> stopEvent.Some?)
      && (forall i :: 0 <= i < |workers| && task != Some(i) ==> workers[i].done)
      && (forall i :: 0 <= i < |workers| && workers[i].raised ==> workers[i].done)
    }

    /** `_worker_task is not None and not _worker_task.done()`. */
    predicate Running()
      requires Valid()
      reads this
    {
      task.Some? && !workers[task.value].done
    }

    /** The state at import time: nothing configured, no worker. */
    constructor()
      ensures Valid() && !Running()
      ensures config == None && workers == [] && task == None && stopEvent == None
    {
      config := None;
      workers := [];
      task := None;
      stopEvent := None;
    }

    /** A fresh stop event and a worker task for the current configuration. */
    method Launch()
      requires Valid() && config.Some? && !Running()
      modifies this
      ensures Valid() && Running()
      ensures config == old(config)
      ensures workers == old(workers) + [Task(config.value, false, false)]
      ensures task == Some(|old(workers)|) && stopEvent == Some(StopEvent(false))
    {
      stopEvent := Some(StopEvent(false));
      workers := workers + [Task(config.value, false, false)];
      task := Some(|workers| - 1);
    }

    /** `startup_event`: start a worker for a configuration that already exists, if there is no task. */
    method StartupEvent()
      requires Valid()
      modifies this
      ensures Valid()
      ensures config == old(config)
      ensures if old(config).Some? && old(task).None? then
          workers == old(workers) + [Task(config.value, false, false)] && task == Some(|old(workers)|)
          && stopEvent == Some(StopEvent(false))
        else workers == old(workers) && task == old(task) && stopEvent == old(stopEvent)
    {
      if config.Some? && task.None? {
        Launch();
      }
    }

    /**
     * `POST /configure`: replace the configuration and start a worker for
     * it unless one is running, which then keeps the configuration it was
     * started with. The reply is the same either way.
     */
    method Configure(cfg: C.Config) returns (r: Reply)
      requires Valid()
      modifies this
      ensures Valid() && Running()
      ensures config == Some(cfg) && r == ConfiguredReply
      ensures if old(Running()) then
          workers == old(workers) && task == old(task) && stopEvent == old(stopEvent)
        else
          workers == old(workers) + [Task(cfg, false, false)] && task == Some(|old(workers)|)
          && stopEvent == Some(StopEvent(false))
    {
      config := Some(cfg);
      if !Running() {
        Launch();
      }
      r := ConfiguredReply;
    }

    /**
     * `POST /start`: an error without a configuration; otherwise a new
     * worker unless one is running.
     */
    method StartWorker() returns (r: Reply)
      requires Valid()
      modifies this
      ensures Valid() && config == old(config)
      ensures r == NotConfiguredReply <==> old(config).None?
      ensures r == StartedReply <==> old(config).Some? && !old(Running())
      ensures r == AlreadyRunningReply <==> old(Running())
      ensures r == StartedReply ==>
        Running() && workers == old(workers) + [Task(config.value, false, false)] && task == Some(|old(workers)|)
        && stopEvent == Some(StopEvent(false))
      ensures r != StartedReply ==> workers == old(workers) && task == old(task) && stopEvent == old(stopEvent)
    {
      if config.None? {
        return NotConfiguredReply;
      }
      if !Running() {
        Launch();
        return StartedReply;
      }
      return AlreadyRunningReply;
    }

    /**
     * `stop_worker`: set the stop event, wait for the task (cancelling it
     * after the timeout), and forget both. A task still running ends when
     * it sees the event, or is cancelled; a task that already ended with an
     * exception makes the wait raise it again, and then neither is
     * forgotten.
     */
    method StopWorker() returns (raised: bool)
      requires Valid()
      modifies this
      ensures Valid() && !Running() && config == old(config)
      ensures raised <==> old(task).Some? && old(workers[task.value]).raised
      ensures raised ==> workers == old(workers) && task == old(task) && stopEvent == Some(StopEvent(true))
      ensures !raised ==> task == None && stopEvent == None
      ensures !raised && old(task).None? ==> workers == old(workers)
      ensures !raised && old(task).Some? ==>
        workers == old(workers)[old(task.value) := old(workers[task.value]).(done := true)]
      ensures old(task).None? && old(stopEvent).None? ==> unchanged(this)
    {
      if stopEvent.Some? && !stopEvent.value.isSet {
        stopEvent := Some(StopEvent(true));
      }
      if task.Some? {
        if workers[task.value].raised {
          return true;
        }
        workers := workers[task.value := workers[task.value].(done := true)];
        task := None;
      }
      stopEvent := None;
      return false;
    }

    /** `POST /stop`: the stop reply, or no reply when `stop_worker` raises. */
    method StopWorkerEndpoint() returns (r: Option<Reply>)
      requires Valid()
      modifies this
      ensures Valid() && !Running() && config == old(config)
      ensures r.None? <==> old(task).Some? && old(workers[task.value]).raised
      ensures r.Some? ==> r.value == StopReply
      ensures r.None? ==> workers == old(workers) && task == old(task) && stopEvent == Some(StopEvent(true))
      ensures r.Some? ==> task == None && stopEvent == None
      ensures r.Some? && old(task).None? ==> workers == old(workers)
      ensures r.Some? && old(task).Some? ==>
        workers == old(workers)[old(task.value) := old(workers[task.value]).(done := true)]
    {
      var raised := StopWorker();
      r := if raised then None else Some(StopReply);
    }

    /** `shutdown_event`: stop the worker; `raised` when `stop_worker` raises. */
    method ShutdownEvent() returns (raised: bool)
      requires Valid()
      modifies this
      ensures Valid() && !Running() && config == old(config)
      ensures raised <==> old(task).Some? && old(workers[task.value]).raised
      ensures raised ==> workers == old(workers) && task == old(task) && stopEvent == Some(StopEvent(true))
      ensures !raised ==> task == None && stopEvent == None
      ensures !raised && old(task).Some? ==>
        workers == old(workers)[old(task.value) := old(workers[task.value]).(done := true)]
    {
      raised := StopWorker();
    }

    /**
     * The current worker's loop ends on its own. It returns only once its
     * stop event is set, which only `stop_worker` does, so on its own it can
     * only end with an exception; the service still refers to the task.
     */
    method WorkerRaises()
      requires Valid() && Running()
      modifies this
      ensures Valid() && !Running()
      ensures config == old(config) && task == old(task) && stopEvent == old(stopEvent)
      ensures workers == old(workers)[task.value := old(workers[task.value]).(done := true, raised := true)]
    {
      workers := workers[task.value := workers[task.value].(done := true, raised := true)];
    }

    /** `GET /status`. */
    method GetStatus() returns (s: Status)
      requires Valid()
      ensures s.configured <==> config.Some?
      ensures s.workerRunning <==> task.Some? && !workers[task.value].done
      ensures s.configFile.Some? <==> config.Some?
      ensures s.configFile.Some? ==> s.configFile.value == ConfigFile
    {
      s := Status(config.Some?, Running(), if config.Some? then Some(ConfigFile) else None);
    }
  }
}
