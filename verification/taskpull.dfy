/** The task-pull scheduler of MPI_taskpull2.py: rank 0 (the master) hands
    tasks from a finite task sequence to whichever worker reports READY,
    records DONE results and counts EXIT acknowledgements; every other rank
    (a worker) asks for work, runs it and reports.

    The MPI transport is not modelled: the master sees the sequence of
    messages in the order they arrive (`inbox`), each with its source rank,
    and a worker sees the sequence of commands the master sends it. */
module TaskPull {

  // ---------------------------------------------------------------------------
  // Message tags

  /** `enum(*names)`: `dict(zip(names, range(len(names))))`. A name repeated
      later in the list overrides the earlier one, as in a dict display. */
  function Enum(names: seq<string>): (r: map<string, nat>)
    ensures forall n :: n in r <==> n in names
    ensures forall n :: n in r ==> r[n] < |names| && names[r[n]] == n
    decreases |names|
  {
    if names == [] then map[]
    else Enum(names[..|names| - 1])[names[|names| - 1] := |names| - 1]
  }

  /** Two names with the same value are the same name. */
  lemma EnumInjective(names: seq<string>, a: string, b: string)
    requires a in Enum(names) && b in Enum(names)
    requires Enum(names)[a] == Enum(names)[b]
    ensures a == b
  {
  }

  datatype Tag = READY | DONE | EXIT | START

  const TagNames: seq<string> := ["READY", "DONE", "EXIT", "START"]

  /** `tags = enum('READY', 'DONE', 'EXIT', 'START')`. */
  const Tags: map<string, nat> := Enum(TagNames)

  function Name(t: Tag): string
  {
    match t
    case READY => "READY"
    case DONE => "DONE"
    case EXIT => "EXIT"
    case START => "START"
  }

  /** The integer a tag travels as. */
  function Value(t: Tag): nat
  {
    match t
    case READY => 0
    case DONE => 1
    case EXIT => 2
    case START => 3
  }

  /** With no name repeated, each name's value is its position. */
  lemma {:induction false} EnumPositions(names: seq<string>)
    requires forall i, j :: 0 <= i < j < |names| ==> names[i] != names[j]
    ensures forall i :: 0 <= i < |names| ==> names[i] in Enum(names) && Enum(names)[names[i]] == i
  {
    if names != [] {
      var init := names[..|names| - 1];
      EnumPositions(init);
      forall i | 0 <= i < |names|
        ensures names[i] in Enum(names) && Enum(names)[names[i]] == i
      {
        if i < |names| - 1 {
          assert init[i] == names[i];
        }
      }
    }
  }

  /** `enum` gives the four tags the values 0, 1, 2, 3, so they are pairwise
      distinct and the master's `if`/`elif` dispatch on the tag is unambiguous. */
  lemma TagValues()
    ensures forall t: Tag :: Name(t) in Tags && Tags[Name(t)] == Value(t)
    ensures forall t: Tag, u: Tag :: Value(t) == Value(u) ==> t == u
  {
    forall i, j | 0 <= i < j < |TagNames|
      ensures TagNames[i] != TagNames[j]
    {
      assert TagNames[i][0] != TagNames[j][0];
    }
    EnumPositions(TagNames);
    forall t: Tag
      ensures Name(t) in Tags && Tags[Name(t)] == Value(t)
    {
      assert Name(t) == TagNames[Value(t)];
    }
  }


  // ---------------------------------------------------------------------------
  // Messages

  /** What a worker sends to rank 0. The elapsed wall-clock time a DONE
      message also carries is not modelled. */
  datatype Report<T, R> = Ready | Done(wname: string, task: T, result: R) | ExitAck(wname: string)
  {
    function MsgTag(): Tag
    {
      match this
      case Ready => READY
      case Done(_, _, _) => DONE
      case ExitAck(_) => EXIT
    }
  }

  /** A report as the master's `recv` delivers it, with the source rank. */
  datatype Incoming<T, R> = Incoming(source: nat, report: Report<T, R>)

  /** What rank 0 sends to a worker. */
  datatype Command<T> = Start(task: T) | Exit
  {
    function MsgTag(): Tag
    {
      match this
      case Start(_) => START
      case Exit => EXIT
    }
  }

  datatype Outgoing<T> = Outgoing(dest: nat, command: Command<T>)

  /** The master tells a report's kind from its tag value (READY, DONE,
      EXIT) and the worker a command's (START, EXIT): comparing the value
      with the enum's attribute picks out exactly one kind. */
  lemma TagDispatch<T, R>(m: Report<T, R>, c: Command<T>)
    ensures "READY" in Tags && (Value(m.MsgTag()) == Tags["READY"] <==> m.Ready?)
    ensures "DONE" in Tags && (Value(m.MsgTag()) == Tags["DONE"] <==> m.Done?)
    ensures "EXIT" in Tags && (Value(m.MsgTag()) == Tags["EXIT"] <==> m.ExitAck?)
    ensures "START" in Tags && (Value(c.MsgTag()) == Tags["START"] <==> c.Start?)
    ensures Value(c.MsgTag()) == Tags["EXIT"] <==> c.Exit?
  {
    TagValues();
    assert Name(READY) == "READY" && Name(DONE) == "DONE" && Name(EXIT) == "EXIT" && Name(START) == "START";
  }

  // ---------------------------------------------------------------------------
  // Master

  /** The master's loop variables: how far the task iterator has advanced,
      the results dictionary and the number of workers that have exited. */
  datatype MasterState<T, R> = MasterState(cursor: nat, results: map<T, R>, closed: nat)

  /** Before the loop: nothing pulled, no results, no worker closed. */
  function Init<T, R>(): MasterState<T, R>
  {
    MasterState(0, map[], 0)
  }

  /** One pass of the master's receive loop on one incoming message, with the
      messages it sends in reply. */
  function Step<T, R>(tasks: seq<T>, s: MasterState<T, R>, m: Incoming<T, R>): (r: (MasterState<T, R>, seq<Outgoing<T>>))
    ensures s.cursor <= |tasks| ==> r.0.cursor <= |tasks|
    ensures s.results.Keys <= r.0.results.Keys
    ensures |r.1| == (if m.report.Ready? then 1 else 0)
    ensures forall o :: o in r.1 ==> o.dest == m.source
    ensures m.report.Ready? && s.cursor < |tasks| ==>
      r.0 == s.(cursor := s.cursor + 1) && r.1[0].command == Start(tasks[s.cursor])
    ensures m.report.Ready? && |tasks| <= s.cursor ==> r.0 == s && r.1[0].command == Exit
    ensures m.report.Done? ==> r.0 == s.(results := s.results[m.report.task := m.report.result])
    ensures m.report.ExitAck? ==> r.0 == s.(closed := s.closed + 1)
  {
    match m.report
    case Ready =>
      if s.cursor < |tasks| then
        (s.(cursor := s.cursor + 1), [Outgoing(m.source, Start(tasks[s.cursor]))])
      else
        (s, [Outgoing(m.source, Exit)])
    case Done(_, task, result) =>
      (s.(results := s.results[task := result]), [])
    case ExitAck(_) =>
      (s.(closed := s.closed + 1), [])
  }

  /** The master's state and everything it has sent after processing `msgs`
      in order from the initial state. */
  function Replay<T, R>(tasks: seq<T>, msgs: seq<Incoming<T, R>>): (r: (MasterState<T, R>, seq<Outgoing<T>>))
    ensures r.0.cursor <= |tasks|
    decreases |msgs|
  {
    if msgs == [] then (Init(), [])
    else
      var prev := Replay(tasks, msgs[..|msgs| - 1]);
      var next := Step(tasks, prev.0, msgs[|msgs| - 1]);
      (next.0, prev.1 + next.1)
  }

  /** Sources of the READY messages, in arrival order. */
  function ReadySources<T, R>(msgs: seq<Incoming<T, R>>): seq<nat>
  {
    if msgs == [] then []
    else
      var last := msgs[|msgs| - 1];
      ReadySources(msgs[..|msgs| - 1]) + (if last.report.Ready? then [last.source] else [])
  }

  /** Number of EXIT acknowledgements. */
  function CountExits<T, R>(msgs: seq<Incoming<T, R>>): nat
  {
    if msgs == [] then 0
    else CountExits(msgs[..|msgs| - 1]) + (if msgs[|msgs| - 1].report.ExitAck? then 1 else 0)
  }

  /** Tasks named in DONE messages. */
  function DoneTasks<T, R>(msgs: seq<Incoming<T, R>>): set<T>
  {
    if msgs == [] then {}
    else
      var last := msgs[|msgs| - 1];
      DoneTasks(msgs[..|msgs| - 1]) + (if last.report.Done? then {last.report.task} else {})
  }

  function Min(a: int, b: int): int
  {
    if a < b then a else b
  }

  /** Reference schedule: the k-th READY is answered, at its own source, with
      the k-th task while there is one and with EXIT afterwards. */
  function Assignment<T>(tasks: seq<T>, srcs: seq<nat>): (r: seq<Outgoing<T>>)
    ensures |r| == |srcs|
  {
    seq(|srcs|, k requires 0 <= k < |srcs| =>
      Outgoing(srcs[k], if k < |tasks| then Start(tasks[k]) else Exit))
  }

  /** A whole run of the master, characterised without reference to `Step`:
      `closed_workers` counts the EXIT acks, the iterator has advanced once
      per READY until it ran dry, the keys of `results` are exactly the tasks
      reported DONE, and the replies follow the reference schedule. */
  lemma {:induction false} ReplayMeaning<T, R>(tasks: seq<T>, msgs: seq<Incoming<T, R>>)
    ensures Replay(tasks, msgs).0.closed == CountExits(msgs)
    ensures Replay(tasks, msgs).0.cursor == Min(|tasks|, |ReadySources(msgs)|)
    ensures Replay(tasks, msgs).0.results.Keys == DoneTasks(msgs)
    ensures Replay(tasks, msgs).1 == Assignment(tasks, ReadySources(msgs))
    decreases |msgs|
  {
    if msgs != [] {
      var init := msgs[..|msgs| - 1];
      var m := msgs[|msgs| - 1];
      ReplayMeaning(tasks, init);
      var srcs := ReadySources(init);
      if m.report.Ready? {
        var a := Assignment(tasks, srcs + [m.source]);
        var b := Assignment(tasks, srcs) + Replay(tasks, msgs).1[|Replay(tasks, init).1|..];
        assert Replay(tasks, msgs).1 == Assignment(tasks, srcs) + Step(tasks, Replay(tasks, init).0, m).1;
        assert a == Assignment(tasks, srcs) + [a[|srcs|]];
      } else {
        assert ReadySources(msgs) == srcs;
      }
    }
  }

  /** The tasks carried by START replies, in the order they were sent. */
  function StartedTasks<T>(sent: seq<Outgoing<T>>): seq<T>
  {
    if sent == [] then []
    else
      var last := sent[|sent| - 1].command;
      StartedTasks(sent[..|sent| - 1]) + (if last.Start? then [last.task] else [])
  }

  /** The iterator is advanced only on READY, so the tasks sent out are the
      prefix of the task sequence pulled so far, each exactly once and in
      order: no task is assigned twice and none is skipped. */
  lemma {:induction false} EachTaskAssignedOnce<T, R>(tasks: seq<T>, msgs: seq<Incoming<T, R>>)
    ensures StartedTasks(Replay(tasks, msgs).1) == tasks[..Replay(tasks, msgs).0.cursor]
  {
    ReplayMeaning(tasks, msgs);
    StartedPrefix(tasks, ReadySources(msgs));
  }

  lemma {:induction false} StartedPrefix<T>(tasks: seq<T>, srcs: seq<nat>)
    ensures StartedTasks(Assignment(tasks, srcs)) == tasks[..Min(|tasks|, |srcs|)]
    decreases |srcs|
  {
    if srcs != [] {
      var init := srcs[..|srcs| - 1];
      StartedPrefix(tasks, init);
      var a := Assignment(tasks, srcs);
      assert a[..|a| - 1] == Assignment(tasks, init);
      if |init| < |tasks| {
        assert tasks[..|init| + 1] == tasks[..|init|] + [tasks[|init|]];
      }
    }
  }

  /** `results` only grows: a key present after a prefix of the messages is
      present after all of them. */
  lemma {:induction false} ResultsOnlyGrow<T, R>(tasks: seq<T>, msgs: seq<Incoming<T, R>>, k: nat)
    requires k <= |msgs|
    ensures Replay(tasks, msgs[..k]).0.results.Keys <= Replay(tasks, msgs).0.results.Keys
    decreases |msgs|
  {
    if k < |msgs| {
      var init := msgs[..|msgs| - 1];
      assert init[..k] == msgs[..k];
      ResultsOnlyGrow(tasks, init, k);
    } else {
      assert msgs[..k] == msgs;
    }
  }

  /** If every DONE message carries `f` of its task, every entry of `results`
      holds `f` of its key. */
  lemma {:induction false} ResultsAreReported<T, R>(tasks: seq<T>, msgs: seq<Incoming<T, R>>, f: T -> R)
    requires forall k :: 0 <= k < |msgs| && msgs[k].report.Done? ==> msgs[k].report.result == f(msgs[k].report.task)
    ensures forall t :: t in Replay(tasks, msgs).0.results ==> Replay(tasks, msgs).0.results[t] == f(t)
    decreases |msgs|
  {
    if msgs != [] {
      var init := msgs[..|msgs| - 1];
      assert forall k :: 0 <= k < |init| ==> init[k] == msgs[k];
      ResultsAreReported(tasks, init, f);
    }
  }

  /** The master branch of `taskpull` (rank 0): `num_workers = size - 1` and the
      loop runs while `closed_workers < num_workers`, taking the next message
      from `inbox`. If the inbox runs out first, the real master would block
      in `recv` forever; the model then stops with `returned == false`. */
  method Taskpull<T, R>(tasks: seq<T>, size: nat, inbox: seq<Incoming<T, R>>)
    returns (results: map<T, R>, sent: seq<Outgoing<T>>, used: nat, returned: bool)
    requires size >= 1
    ensures used <= |inbox|
    ensures results == Replay(tasks, inbox[..used]).0.results
    ensures sent == Replay(tasks, inbox[..used]).1
    ensures CountExits(inbox[..used]) <= size - 1
    ensures returned <==> CountExits(inbox[..used]) == size - 1
    ensures !returned ==> used == |inbox|
    ensures forall j :: 0 <= j < used ==> CountExits(inbox[..j]) < size - 1
    ensures CountExits(inbox) >= size - 1 ==> returned
  {
    var cursor := 0;
    var numWorkers := size - 1;
    var closed := 0;
    results := map[];
    sent := [];
    used := 0;
    while closed < numWorkers && used < |inbox|
      invariant used <= |inbox|
      invariant Replay(tasks, inbox[..used]) == (MasterState(cursor, results, closed), sent)
      invariant closed == CountExits(inbox[..used]) <= numWorkers
      invariant forall j :: 0 <= j < used ==> CountExits(inbox[..j]) < numWorkers
    {
      var m := inbox[used];
      assert inbox[..used + 1][..used] == inbox[..used];
      ghost var next := Step(tasks, MasterState(cursor, results, closed), m);
      ghost var sentBefore := sent;
      match m.report {
        case Ready =>
          if cursor < |tasks| {
            sent := sent + [Outgoing(m.source, Start(tasks[cursor]))];
            cursor := cursor + 1;
          } else {
            sent := sent + [Outgoing(m.source, Exit)];
          }
        case Done(_, task, result) =>
          results := results[task := result];
        case ExitAck(_) =>
          closed := closed + 1;
      }
      assert MasterState(cursor, results, closed) == next.0;
      assert sent == sentBefore + next.1;
      used := used + 1;
    }
    returned := closed == numWorkers;
    assert !returned ==> inbox[..used] == inbox;
  }

  // ---------------------------------------------------------------------------
  // Worker

  /** A task is either a tuple, spread into positional arguments, or a single
      value passed as the only argument. */
  datatype Task<V> = Single(value: V) | Spread(args: seq<V>)

  /** The positional arguments `worker_fn` is called with. */
  function Args<V>(t: Task<V>): seq<V>
  {
    match t
    case Single(v) => [v]
    case Spread(a) => a
  }

  /** What a worker sends after receiving one command. */
  function React<V, R>(wname: string, fn: seq<V> -> R, c: Command<Task<V>>): Report<Task<V>, R>
  {
    match c
    case Start(t) => Done(wname, t, fn(Args(t)))
    case Exit => ExitAck(wname)
  }

  /** Everything a worker sends, given the commands it receives: READY before
      every receive, then the reaction; it stops after EXIT. With no command
      left, the last READY is followed by a receive that never returns. */
  function WorkerOutput<V, R>(wname: string, fn: seq<V> -> R, inbox: seq<Command<Task<V>>>): (r: seq<Report<Task<V>, R>>)
    ensures r != [] && r[0] == Ready && |r| <= 2 * |inbox| + 1
    ensures r[|r| - 1] == Ready || r[|r| - 1].ExitAck?
    decreases |inbox|
  {
    if inbox == [] then [Ready]
    else [Ready, React(wname, fn, inbox[0])] + (if inbox[0].Exit? then [] else WorkerOutput(wname, fn, inbox[1..]))
  }

  ghost predicate Alternating<T, R>(out: seq<Report<T, R>>)
  {
    forall k :: 0 <= k < |out| ==> (out[k].Ready? <==> k % 2 == 0)
  }

  /** Each receive is preceded by exactly one READY: READY and replies
      alternate, starting with READY. */
  lemma {:induction false} WorkerAlternates<V, R>(wname: string, fn: seq<V> -> R, inbox: seq<Command<Task<V>>>)
    ensures Alternating(WorkerOutput(wname, fn, inbox))
    decreases |inbox|
  {
    if inbox != [] && inbox[0].Start? {
      var out := WorkerOutput(wname, fn, inbox);
      var rest := WorkerOutput(wname, fn, inbox[1..]);
      WorkerAlternates(wname, fn, inbox[1..]);
      assert Alternating(rest);
      assert out == [Ready, React(wname, fn, inbox[0])] + rest;
      forall k | 0 <= k < |out|
        ensures out[k].Ready? <==> k % 2 == 0
      {
        if k >= 2 {
          assert out[k] == rest[k - 2] && k % 2 == (k - 2) % 2;
          assert rest[k - 2].Ready? <==> (k - 2) % 2 == 0;
        } else {
          assert out[0] == Ready && out[1] == React(wname, fn, inbox[0]);
        }
      }
    }
  }

  /** The k-th reply is the reaction to the k-th command received: DONE with
      `worker_fn` applied to the task's arguments for START, the EXIT ack for
      EXIT. */
  lemma {:induction false} WorkerReplies<V, R>(wname: string, fn: seq<V> -> R, inbox: seq<Command<Task<V>>>)
    ensures var out := WorkerOutput(wname, fn, inbox);
      forall k :: 0 <= k < |out| && k % 2 == 1 ==> k / 2 < |inbox| && out[k] == React(wname, fn, inbox[k / 2])
    decreases |inbox|
  {
    if inbox != [] && inbox[0].Start? {
      var out := WorkerOutput(wname, fn, inbox);
      var rest := WorkerOutput(wname, fn, inbox[1..]);
      WorkerReplies(wname, fn, inbox[1..]);
      assert out == [Ready, React(wname, fn, inbox[0])] + rest;
      forall k | 2 <= k < |out| && k % 2 == 1
        ensures k / 2 < |inbox| && out[k] == React(wname, fn, inbox[k / 2])
      {
        assert out[k] == rest[k - 2];
        assert (k - 2) % 2 == 1 && (k - 2) / 2 + 1 == k / 2;
        assert inbox[1..][(k - 2) / 2] == inbox[k / 2];
      }
    }
  }

  /** After EXIT the worker sends exactly one EXIT ack and nothing more: an
      ack can only be the last message, and the last message is an ack
      exactly when an EXIT was received. */
  lemma {:induction false} WorkerAcksLast<V, R>(wname: string, fn: seq<V> -> R, inbox: seq<Command<Task<V>>>)
    ensures var out := WorkerOutput(wname, fn, inbox);
      (forall k :: 0 <= k < |out| && out[k].ExitAck? ==> k == |out| - 1)
      && (out[|out| - 1].ExitAck? <==> exists i :: 0 <= i < |inbox| && inbox[i].Exit?)
    decreases |inbox|
  {
    if inbox != [] && inbox[0].Start? {
      var out := WorkerOutput(wname, fn, inbox);
      var rest := WorkerOutput(wname, fn, inbox[1..]);
      WorkerAcksLast(wname, fn, inbox[1..]);
      assert out == [Ready, React(wname, fn, inbox[0])] + rest;
      assert out[|out| - 1] == rest[|rest| - 1];
      forall k | 2 <= k < |out|
        ensures out[k] == rest[k - 2]
      {
      }
      if exists i :: 0 <= i < |inbox| && inbox[i].Exit? {
        var i :| 0 <= i < |inbox| && inbox[i].Exit?;
        assert inbox[1..][i - 1].Exit?;
      }
      if exists i :: 0 <= i < |inbox[1..]| && inbox[1..][i].Exit? {
        var i :| 0 <= i < |inbox[1..]| && inbox[1..][i].Exit?;
        assert inbox[i + 1].Exit?;
      }
    }
  }

  /** The worker branch of `taskpull`: `while True`, send READY, receive,
      run the task on START, leave the loop on EXIT, then send one EXIT ack and
      return. If the inbox runs out, the worker is left blocked in `recv`
      (`returned == false`). */
  method Worker<V, R>(wname: string, fn: seq<V> -> R, inbox: seq<Command<Task<V>>>)
    returns (outbox: seq<Report<Task<V>, R>>, used: nat, returned: bool)
    ensures used <= |inbox|
    ensures outbox == WorkerOutput(wname, fn, inbox)
    ensures returned <==> exists i :: 0 <= i < |inbox| && inbox[i].Exit?
    ensures returned ==> 1 <= used && inbox[used - 1].Exit? && forall i :: 0 <= i < used - 1 ==> inbox[i].Start?
    ensures !returned ==> used == |inbox|
  {
    outbox, used, returned := [], 0, false;
    while true
      invariant used <= |inbox|
      invariant forall i :: 0 <= i < used ==> inbox[i].Start?
      invariant outbox == WorkerPrefix(wname, fn, inbox, used)
      decreases |inbox| - used
    {
      outbox := outbox + [Ready];
      if used == |inbox| {
        WorkerSplit(wname, fn, inbox, used);
        assert inbox[used..] == [];
        return;
      }
      var command := inbox[used];
      used := used + 1;
      if command.Exit? {
        returned := true;
        outbox := outbox + [ExitAck(wname)];
        WorkerSplit(wname, fn, inbox, used - 1);
        WorkerStep(wname, fn, inbox, used - 1);
        return;
      }
      var task := command.task;
      var result;
      match task {
        case Spread(a) => result := fn(a);
        case Single(v) => result := fn([v]);
      }
      outbox := outbox + [Done(wname, task, result)];
    }
  }

  /** What the worker sends for its first `n` commands, all of them START. */
  function WorkerPrefix<V, R>(wname: string, fn: seq<V> -> R, inbox: seq<Command<Task<V>>>, n: nat): seq<Report<Task<V>, R>>
    requires n <= |inbox|
  {
    if n == 0 then [] else WorkerPrefix(wname, fn, inbox, n - 1) + [Ready, React(wname, fn, inbox[n - 1])]
  }

  /** After `n` START commands, the worker's output is their prefix followed
      by its output for the remaining commands. */
  lemma {:induction false} WorkerSplit<V, R>(wname: string, fn: seq<V> -> R, inbox: seq<Command<Task<V>>>, n: nat)
    requires n <= |inbox| && forall i :: 0 <= i < n ==> inbox[i].Start?
    ensures WorkerOutput(wname, fn, inbox) == WorkerPrefix(wname, fn, inbox, n) + WorkerOutput(wname, fn, inbox[n..])
  {
    if n == 0 {
      assert inbox[0..] == inbox;
    } else {
      WorkerSplit(wname, fn, inbox, n - 1);
      WorkerStep(wname, fn, inbox, n - 1);
      Regroup(WorkerOutput(wname, fn, inbox), WorkerPrefix(wname, fn, inbox, n - 1), WorkerOutput(wname, fn, inbox[n - 1..]),
        [Ready, React(wname, fn, inbox[n - 1])], WorkerOutput(wname, fn, inbox[n..]));
    }
  }

  /** Concatenation regroups: splitting the back of a split gives a split
      whose front has grown. */
  lemma Regroup<T>(whole: seq<T>, front: seq<T>, back: seq<T>, mid: seq<T>, rest: seq<T>)
    requires whole == front + back && back == mid + rest
    ensures whole == (front + mid) + rest
  {
  }

  /** The worker's output from the i-th command on: READY, its reaction, and
      the rest unless it was EXIT. */
  lemma WorkerStep<V, R>(wname: string, fn: seq<V> -> R, inbox: seq<Command<Task<V>>>, i: nat)
    requires i < |inbox|
    ensures WorkerOutput(wname, fn, inbox[i..])
      == [Ready, React(wname, fn, inbox[i])] + (if inbox[i].Exit? then [] else WorkerOutput(wname, fn, inbox[i + 1..]))
  {
    assert inbox[i..][1..] == inbox[i + 1..];
  }

  // ---------------------------------------------------------------------------
  // A closed run with one worker

  function StartAll<T>(tasks: seq<T>): (r: seq<Command<T>>)
    ensures |r| == |tasks|
  {
    seq(|tasks|, k requires 0 <= k < |tasks| => Start(tasks[k]))
  }

  function Commands<T>(sent: seq<Outgoing<T>>): (r: seq<Command<T>>)
    ensures |r| == |sent|
  {
    seq(|sent|, k requires 0 <= k < |sent| => sent[k].command)
  }

  /** A worker's messages as the master receives them, from rank `source`. */
  function FromSource<T, R>(source: nat, reports: seq<Report<T, R>>): (r: seq<Incoming<T, R>>)
    ensures |r| == |reports|
  {
    seq(|reports|, k requires 0 <= k < |reports| => Incoming(source, reports[k]))
  }

  /** Workers that ask once and are told to exit at once: READY then the ack. */
  function Idle<T, R>(ranks: seq<nat>): seq<Incoming<T, R>>
  {
    if ranks == [] then []
    else
      var k := ranks[|ranks| - 1];
      Idle(ranks[..|ranks| - 1]) + [Incoming(k, Ready), Incoming(k, ExitAck(""))]
  }

  lemma {:induction false} ReadySourcesAppend<T, R>(a: seq<Incoming<T, R>>, b: seq<Incoming<T, R>>)
    ensures ReadySources(a + b) == ReadySources(a) + ReadySources(b)
    ensures CountExits(a + b) == CountExits(a) + CountExits(b)
    ensures DoneTasks(a + b) == DoneTasks(a) + DoneTasks(b)
    decreases |b|
  {
    if b == [] {
      assert a + b == a;
    } else {
      var init := b[..|b| - 1];
      assert (a + b)[..|a + b| - 1] == a + init;
      assert (a + b)[|a + b| - 1] == b[|b| - 1];
      ReadySourcesAppend(a, init);
    }
  }

  lemma PairCounts<T, R>(a: Incoming<T, R>, b: Incoming<T, R>)
    ensures ReadySources([a, b]) == (if a.report.Ready? then [a.source] else []) + (if b.report.Ready? then [b.source] else [])
    ensures CountExits([a, b]) == (if a.report.ExitAck? then 1 else 0) + (if b.report.ExitAck? then 1 else 0)
    ensures DoneTasks([a, b]) == (if a.report.Done? then {a.report.task} else {}) + (if b.report.Done? then {b.report.task} else {})
  {
    var p := [a, b];
    assert p[..|p| - 1] == [a] && p[|p| - 1] == b;
    assert [a][..|[a]| - 1] == [] && [a][|[a]| - 1] == a;
    assert ReadySources([a]) == (if a.report.Ready? then [a.source] else []);
    assert CountExits([a]) == (if a.report.ExitAck? then 1 else 0);
    assert DoneTasks([a]) == (if a.report.Done? then {a.report.task} else {});
  }

  lemma {:induction false} IdleCounts<T, R>(ranks: seq<nat>)
    ensures ReadySources<T, R>(Idle(ranks)) == ranks
    ensures CountExits<T, R>(Idle(ranks)) == |ranks|
    ensures DoneTasks<T, R>(Idle(ranks)) == {}
    ensures forall k :: 0 <= k < |Idle<T, R>(ranks)| ==> !Idle<T, R>(ranks)[k].report.Done?
    decreases |ranks|
  {
    if ranks != [] {
      var init := ranks[..|ranks| - 1];
      var k := ranks[|ranks| - 1];
      var pair: seq<Incoming<T, R>> := [Incoming(k, Ready), Incoming(k, ExitAck(""))];
      IdleCounts<T, R>(init);
      ReadySourcesAppend(Idle<T, R>(init), pair);
      PairCounts(pair[0], pair[1]);
      assert ranks == init + [k];
    }
  }

  lemma SoloUnfold<V, R>(wname: string, fn: seq<V> -> R, tasks: seq<Task<V>>)
    requires tasks != []
    ensures WorkerOutput(wname, fn, StartAll(tasks) + [Exit])
      == [Ready, Done(wname, tasks[0], fn(Args(tasks[0])))] + WorkerOutput(wname, fn, StartAll(tasks[1..]) + [Exit])
  {
    assert (StartAll(tasks) + [Exit])[1..] == StartAll(tasks[1..]) + [Exit];
  }

  lemma FromSourceAppend<T, R>(source: nat, a: seq<Report<T, R>>, b: seq<Report<T, R>>)
    ensures FromSource(source, a + b) == FromSource(source, a) + FromSource(source, b)
  {
  }

  lemma SetOfCons<T>(tasks: seq<T>)
    requires tasks != []
    ensures (set x | x in tasks) == {tasks[0]} + (set x | x in tasks[1..])
  {
    assert tasks == [tasks[0]] + tasks[1..];
  }

  /** A worker that is given every task and then EXIT reports READY before
      each command and DONE for each task; the master sees it, from rank
      `source`, asking `|tasks| + 1` times, reporting each task and acking once. */
  lemma {:induction false} SoloCounts<V, R>(source: nat, wname: string, fn: seq<V> -> R, tasks: seq<Task<V>>)
    ensures SoloFacts(source, wname, fn, tasks)
    decreases |tasks|
  {
    if tasks == [] {
      SoloNone(source, wname, fn, tasks);
    } else {
      SoloCounts(source, wname, fn, tasks[1..]);
      SoloMore(source, wname, fn, tasks);
    }
  }

  ghost predicate SoloFacts<V, R>(source: nat, wname: string, fn: seq<V> -> R, tasks: seq<Task<V>>)
  {
    var msgs := FromSource(source, WorkerOutput(wname, fn, StartAll(tasks) + [Exit]));
    ReadySources(msgs) == seq(|tasks| + 1, _ => source)
    && CountExits(msgs) == 1
    && DoneTasks(msgs) == set t | t in tasks
  }

  lemma SoloNone<V, R>(source: nat, wname: string, fn: seq<V> -> R, tasks: seq<Task<V>>)
    requires tasks == []
    ensures SoloFacts(source, wname, fn, tasks)
  {
    var out := WorkerOutput(wname, fn, StartAll(tasks) + [Exit]);
    var msgs := FromSource(source, out);
    assert StartAll(tasks) + [Exit] == [Exit];
    assert out == [Ready, ExitAck(wname)];
    assert msgs == [msgs[0], msgs[1]];
    PairCounts(msgs[0], msgs[1]);
  }

  lemma SoloMore<V, R>(source: nat, wname: string, fn: seq<V> -> R, tasks: seq<Task<V>>)
    requires tasks != [] && SoloFacts(source, wname, fn, tasks[1..])
    ensures SoloFacts(source, wname, fn, tasks)
  {
    var t := tasks[0];
    var out' := WorkerOutput(wname, fn, StartAll(tasks[1..]) + [Exit]);
    var pair := [Ready, Done(wname, t, fn(Args(t)))];
    SoloUnfold(wname, fn, tasks);
    FromSourceAppend(source, pair, out');
    var head := FromSource(source, pair);
    ReadySourcesAppend(head, FromSource(source, out'));
    assert head == [head[0], head[1]];
    PairCounts(head[0], head[1]);
    assert seq(|tasks| + 1, _ => source) == [source] + seq(|tasks[1..]| + 1, _ => source);
    SetOfCons(tasks);
  }

  /** Every DONE a worker sends carries `worker_fn` of its task's arguments. */
  lemma WorkerDoneResults<V, R>(source: nat, wname: string, fn: seq<V> -> R, inbox: seq<Command<Task<V>>>)
    ensures var msgs := FromSource(source, WorkerOutput(wname, fn, inbox));
      forall k :: 0 <= k < |msgs| && msgs[k].report.Done? ==> msgs[k].report.result == fn(Args(msgs[k].report.task))
  {
    var out := WorkerOutput(wname, fn, inbox);
    WorkerAlternates(wname, fn, inbox);
    WorkerReplies(wname, fn, inbox);
    forall k | 0 <= k < |out| && out[k].Done?
      ensures out[k].result == fn(Args(out[k].task))
    {
      assert k % 2 == 1;
    }
  }

  /** A complete run with the tasks served one at a time by worker rank 1
      while the workers in `others` ask only after the tasks have run out.
      The master's replies are exactly the commands each worker consumes (the
      run is consistent), every worker gets EXIT once, `closed_workers`
      reaches the number of workers, and `results` maps every task, and only
      the tasks, to `worker_fn` of its arguments. With `others == []` this is
      the single-worker run; with no tasks every worker is told to exit on its
      first READY and `results` is empty. */
  lemma SequentialRun<V, R>(tasks: seq<Task<V>>, wname: string, fn: seq<V> -> R, others: seq<nat>)
    ensures var cmds := StartAll(tasks) + [Exit];
      var msgs := FromSource(1, WorkerOutput(wname, fn, cmds)) + Idle(others);
      var r := Replay(tasks, msgs);
      Commands(r.1) == cmds + seq(|others|, _ => Exit)
      && (forall k :: 0 <= k < |r.1| ==> r.1[k].dest == if k <= |tasks| then 1 else others[k - |tasks| - 1])
      && r.0.closed == 1 + |others|
      && (forall t :: t in r.0.results <==> t in tasks)
      && (forall t :: t in r.0.results ==> r.0.results[t] == fn(Args(t)))
  {
    var cmds := StartAll(tasks) + [Exit];
    var solo := FromSource(1, WorkerOutput(wname, fn, cmds));
    var idle := Idle<Task<V>, R>(others);
    var msgs := solo + idle;
    SequentialMessages(tasks, wname, fn, others);
    ReplayMeaning(tasks, msgs);
    ScheduleCommands(tasks, others);
    WorkerDoneResults(1, wname, fn, cmds);
    IdleCounts<Task<V>, R>(others);
    forall k | 0 <= k < |msgs| && msgs[k].report.Done?
      ensures msgs[k].report.result == (t => fn(Args(t)))(msgs[k].report.task)
    {
      assert k < |solo|;
      assert msgs[k] == solo[k];
    }
    ResultsAreReported(tasks, msgs, t => fn(Args(t)));
  }

  /** The messages of such a run: rank 1 asks `|tasks| + 1` times, then each
      other worker once; one ack per worker; every task reported. */
  lemma SequentialMessages<V, R>(tasks: seq<Task<V>>, wname: string, fn: seq<V> -> R, others: seq<nat>)
    ensures var msgs := FromSource(1, WorkerOutput(wname, fn, StartAll(tasks) + [Exit])) + Idle(others);
      ReadySources(msgs) == seq(|tasks| + 1, _ => 1) + others
      && CountExits(msgs) == 1 + |others|
      && DoneTasks(msgs) == set t | t in tasks
  {
    var solo := FromSource(1, WorkerOutput(wname, fn, StartAll(tasks) + [Exit]));
    var idle := Idle<Task<V>, R>(others);
    SoloCounts(1, wname, fn, tasks);
    IdleCounts<Task<V>, R>(others);
    ReadySourcesAppend(solo, idle);
  }

  /** The reference schedule for those READYs: rank 1 gets every task and
      then EXIT; each other worker gets EXIT. */
  lemma ScheduleCommands<T>(tasks: seq<T>, others: seq<nat>)
    ensures var a := Assignment(tasks, seq(|tasks| + 1, _ => 1) + others);
      Commands(a) == StartAll(tasks) + [Exit] + seq(|others|, _ => Exit)
      && forall k :: 0 <= k < |a| ==> a[k].dest == if k <= |tasks| then 1 else others[k - |tasks| - 1]
  {
    var srcs := seq(|tasks| + 1, _ => 1) + others;
    var a := Assignment(tasks, srcs);
    var want := StartAll(tasks) + [Exit] + seq(|others|, _ => Exit);
    forall k | 0 <= k < |a|
      ensures Commands(a)[k] == want[k]
      ensures a[k].dest == if k <= |tasks| then 1 else others[k - |tasks| - 1]
    {
      if k < |tasks| {
        assert want[k] == Start(tasks[k]);
      }
    }
  }
}
