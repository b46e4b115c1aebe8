/** The run queue of `backend.c` as a value: the queued tasks in order, the task that is
    running, and whether that one has been marked for another round. */
module TaskStates {
  import opened Lists
  import opened Options


  type TaskId = nat

  datatype TaskState = TaskState(queue: seq<TaskId>, running: Option<TaskId>, marked: bool)

  ghost predicate StateOk(s: TaskState) {
    && Distinct(s.queue)
    && (s.running.Some? ==> s.running.value !in s.queue)
    && (s.marked ==> s.running.Some?)
  }

  function Append(s: TaskState, t: TaskId): TaskState {
    s.(queue := s.queue + [t])
  }

  /** `remove_task` */
  function Remove(s: TaskState, t: TaskId): TaskState {
    if s.running == Some(t) then s.(marked := false) else s.(queue := Drop(s.queue, t))
  }

  /** `reschedule_task` */
  function Reschedule(s: TaskState, t: TaskId): TaskState {
    if s.running == Some(t) then s.(marked := true) else s.(queue := Drop(s.queue, t) + [t])
  }

  /** `mainloop` takes the first task off the queue to run it. */
  function Dequeue(s: TaskState): TaskState
    requires s.queue != []
  {
    TaskState(s.queue[1..], Some(s.queue[0]), false)
  }

  /** `mainloop` puts a marked task back and frees any other. */
  function Finish(s: TaskState): TaskState
    requires s.running.Some?
  {
    TaskState(if s.marked then s.queue + [s.running.value] else s.queue, None, false)
  }
}
