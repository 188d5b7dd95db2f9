/** The persisted task queue of work/task_queue.py: an ordered list of task
    records kept in one JSON file. Create, update and delete re-read the
    file and rewrite it whole only when they succeed; a rejected call
    writes nothing. Clear writes [] without reading, and read never
    writes. The file is modelled by the value
    it decodes to; reading and writing text is not modelled. */
module TaskQueue {
  import opened Wrappers
  import opened JsonRecords
  import opened Lists

  /** What the task file holds: a JSON list, or content `json.load` rejects
      (an empty file among it). */
  datatype TaskFile = JsonList(items: seq<Entry>) | Undecodable

  /** `_read_tasks`: the decoded list, or the empty list when the file does
      not decode. */
  function Decoded(f: TaskFile): seq<Entry>
  {
    match f
    case JsonList(items) => items
    case Undecodable => []
  }

  /** What each operation reports: success, the `ValueError` for a task that
      is not a dict, or the "Invalid task index" message. */
  datatype Status = Done | NotADict | InvalidIndex

  /** `tasks[index - 1] = t` for a 1-based index. */
  function Replaced(tasks: seq<Entry>, index: int, t: Entry): (r: seq<Entry>)
    requires 0 < index <= |tasks|
    ensures |r| == |tasks|
    ensures r[index - 1] == t
    ensures forall j | 0 <= j < |tasks| && j != index - 1 :: r[j] == tasks[j]
  {
    tasks[..index - 1] + [t] + tasks[index..]
  }

  /** The dicts among `news`, in order: the tasks `create_task` accepts. */
  function Dicts(news: seq<Entry>): seq<Entry>
  {
    if |news| == 0 then []
    else (if news[0].Object? then [news[0]] else []) + Dicts(news[1..])
  }

  /** The queue left by calling `create_task` on each of `news` in turn,
      one call at a time as `Queue.CreateTask` specifies it. */
  function AfterCreates(tasks: seq<Entry>, news: seq<Entry>): seq<Entry>
    decreases |news|
  {
    if |news| == 0 then tasks
    else AfterCreates(if news[0].Object? then tasks + [news[0]] else tasks, news[1..])
  }

  /** FIFO: successive `create_task` calls leave the accepted tasks after
      the existing ones, in the order they were created. */
  lemma {:induction false} CreatesKeepInsertionOrder(tasks: seq<Entry>, news: seq<Entry>)
    ensures AfterCreates(tasks, news) == tasks + Dicts(news)
    decreases |news|
  {
    if |news| > 0 {
      var next := if news[0].Object? then tasks + [news[0]] else tasks;
      CreatesKeepInsertionOrder(next, news[1..]);
      assert next + Dicts(news[1..]) == tasks + Dicts(news);
    }
  }

  /** `TaskQueue`: one object per task file. */
  class Queue {
    /** The file's content; a successful create, update or delete and a
        clear rewrite it whole, and nothing else writes it. */
    var file: TaskFile

    /** The queue as `_read_tasks` reads it from the file. */
    function Tasks(): seq<Entry>
      reads this
    {
      Decoded(file)
    }

    /** `TaskQueue(file_path)`: `existing` is the file found on disk, or
        None when there is none, in which case an empty list is written. */
    constructor (existing: Option<TaskFile>)
      ensures file == existing.GetOr(JsonList([]))
      ensures existing.None? ==> Tasks() == []
    {
      file := existing.GetOr(JsonList([]));
    }

    /** `read_tasks` (and `_read_tasks`): an undecodable file reads as the
        empty queue. */
    method ReadTasks() returns (tasks: seq<Entry>)
      ensures file.Undecodable? ==> tasks == []
      ensures file.JsonList? ==> tasks == file.items
      ensures tasks == Tasks()
    {
      match file
      case JsonList(items) => tasks := items;
      case Undecodable => tasks := [];
    }

    /** `create_task`: a dict goes to the end of the queue, which is then
        written back (so an undecodable file becomes a one-task list);
        anything else raises `ValueError` and leaves the file alone. */
    method CreateTask(task: Entry) returns (status: Status)
      modifies this
      ensures status == (if task.Object? then Done else NotADict)
      ensures task.Object? ==> file == JsonList(old(Tasks()) + [task])
      ensures !task.Object? ==> file == old(file)
    {
      if !task.Object? {
        return NotADict;
      }
      var tasks := ReadTasks();
      tasks := tasks + [task];
      file := JsonList(tasks);
      status := Done;
    }

    /** `update_task`: replaces the task at 1-based `index` when
        `0 < index <= len(tasks)`; an index out of range only prints a
        message and writes nothing. */
    method UpdateTask(index: int, newTask: Entry) returns (status: Status)
      modifies this
      ensures !newTask.Object? ==> status == NotADict && file == old(file)
      ensures newTask.Object? && 0 < index <= |old(Tasks())| ==>
                status == Done && file == JsonList(Replaced(old(Tasks()), index, newTask))
      ensures newTask.Object? && !(0 < index <= |old(Tasks())|) ==>
                status == InvalidIndex && file == old(file)
    {
      if !newTask.Object? {
        return NotADict;
      }
      var tasks := ReadTasks();
      if 0 < index <= |tasks| {
        tasks := tasks[index - 1 := newTask];
        assert tasks == Replaced(old(Tasks()), index, newTask);
        file := JsonList(tasks);
        status := Done;
      } else {
        status := InvalidIndex;
      }
    }

    /** `delete_task`: pops the task at 1-based `index` (it is printed, and
        returned here) when `0 < index <= len(tasks)`; otherwise nothing is
        written. */
    method DeleteTask(index: int) returns (status: Status, deleted: Option<Entry>)
      modifies this
      ensures 0 < index <= |old(Tasks())| ==>
                status == Done && deleted == Some(old(Tasks())[index - 1]) &&
                file == JsonList(DropAt(old(Tasks()), index - 1))
      ensures !(0 < index <= |old(Tasks())|) ==>
                status == InvalidIndex && deleted == None && file == old(file)
    {
      var tasks := ReadTasks();
      if 0 < index <= |tasks| {
        deleted := Some(tasks[index - 1]);
        tasks := DropAt(tasks, index - 1);
        file := JsonList(tasks);
        status := Done;
      } else {
        status, deleted := InvalidIndex, None;
      }
    }

    /** `clear_tasks`: writes an empty list. */
    method ClearTasks()
      modifies this
      ensures file == JsonList([]) && Tasks() == []
    {
      file := JsonList([]);
    }
  }
}
