/** The record loop of LoadInstance (hw3/src/InstanceLoader.cpp), over input
that is already split into lines and numbers: a header count, then one line
of three integers per task. */
module InstanceLoader {

  /** One input line after `ss >> p >> r >> d`. */
  datatype Line = Line(p: int, r: int, d: int)

  /** The four-field task record of hw3/src/InstanceLoader.h. */
  datatype Task = Task(n: int, processTime: int, releaseTime: int, deadline: int)

  datatype Instance = Instance(taskCount: int, tasks: seq<Task>)

  datatype Loaded =
    | Ok(instance: Instance)
      /** Fewer lines after the header than the count. The iterations past
          the input then parse either the last line again or an empty line,
          depending on whether the input ends in a newline, and in the second
          case the task fields are uninitialised: the program has no defined
          result. */
    | ShortInput(taskCount: int, available: nat)

  /** The aggregate initialiser `Task{p, r, d}`: the three values fill the
      first three fields in declaration order, so the process time lands in
      `n`, the release time in `processTime`, the deadline in `releaseTime`,
      and `deadline` is value-initialised to 0. */
  function ToTask(l: Line): (t: Task)
    ensures t.deadline == 0
    ensures [t.n, t.processTime, t.releaseTime] == [l.p, l.r, l.d]
  {
    Task(l.p, l.r, l.d, 0)
  }

  /** LoadInstance: the header gives the count; the loop runs count times
      (not at all for a count of 0 or less), each iteration parsing the next
      line and appending one task, in line order. Lines past the count are
      never read. */
  function LoadInstance(taskCount: int, lines: seq<Line>): (r: Loaded)
    ensures taskCount <= 0 ==> r == Ok(Instance(taskCount, []))
    ensures r.ShortInput? <==> |lines| < taskCount
    ensures r.ShortInput? ==> r.taskCount == taskCount && r.available == |lines|
    ensures r.Ok? ==> r.instance.taskCount == taskCount
    ensures r.Ok? && taskCount > 0 ==> |r.instance.tasks| == taskCount
    ensures r.Ok? ==> forall i :: 0 <= i < |r.instance.tasks| ==> i < |lines| && r.instance.tasks[i] == ToTask(lines[i])
  {
    if taskCount <= 0 then Ok(Instance(taskCount, []))
    else if |lines| < taskCount then ShortInput(taskCount, |lines|)
    else Ok(Instance(taskCount, seq(taskCount, i requires 0 <= i < taskCount => ToTask(lines[i]))))
  }

  /** The inverse reading of a task: the three integers of the line it came
      from. */
  function ToLine(t: Task): Line {
    Line(t.n, t.processTime, t.releaseTime)
  }

  /** Loading one line per task and writing each task back as a line gives
      the input again: the three values of a line all survive, one field
      over. */
  lemma LinesRoundTrip(lines: seq<Line>)
    ensures var tasks := LoadInstance(|lines|, lines).instance.tasks;
            && |tasks| == |lines|
            && forall i :: 0 <= i < |lines| ==> ToLine(tasks[i]) == lines[i] && tasks[i].deadline == 0
  {
  }

  /** Conversely, a task list whose deadlines are all 0 is what loading its
      own lines produces. */
  lemma TasksRoundTrip(tasks: seq<Task>)
    requires forall i :: 0 <= i < |tasks| ==> tasks[i].deadline == 0
    ensures LoadInstance(|tasks|, seq(|tasks|, i requires 0 <= i < |tasks| => ToLine(tasks[i]))) == Ok(Instance(|tasks|, tasks))
  {
    var loaded := LoadInstance(|tasks|, seq(|tasks|, i requires 0 <= i < |tasks| => ToLine(tasks[i])));
    assert loaded.instance.tasks == tasks;
  }

  /** Exactly `taskCount` lines are read: when there are that many, lines
      after them make no difference, and the tasks are those lines, in
      order. */
  lemma TrailingLinesIgnored(taskCount: int, lines: seq<Line>, extra: seq<Line>)
    requires |lines| >= taskCount
    ensures LoadInstance(taskCount, lines + extra) == LoadInstance(taskCount, lines)
    ensures LoadInstance(taskCount, lines).Ok?
    ensures taskCount > 0 ==> LoadInstance(taskCount, lines).instance.tasks == seq(taskCount, i requires 0 <= i < taskCount => ToTask(lines[i]))
  {
    if taskCount > 0 {
      var a := LoadInstance(taskCount, lines).instance.tasks;
      var b := LoadInstance(taskCount, lines + extra).instance.tasks;
      forall i | 0 <= i < taskCount ensures a[i] == b[i] {
        assert (lines + extra)[i] == lines[i];
      }
    }
  }
}
