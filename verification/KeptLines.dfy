/** The lines a log keeps in memory: a bounded queue as a linked list, whose tail is the
    address of the link to write next. */
module KeptLines {
  import opened Bytes

  class LogEntry {
    const line: bytes
    const len: nat
    var next: LogEntry?

    constructor (line: bytes)
      ensures this.line == line && len == |line| + 1 && next == null
    {
      this.line, len, next := line, |line| + 1, null;
    }
  }


  /** The lines of the entries, and the room they take: one byte more than its text for each. */
  function LinesOf(nodes: seq<LogEntry>): (lines: seq<bytes>)
    ensures |lines| == |nodes|
  {
    seq(|nodes|, i requires 0 <= i < |nodes| => nodes[i].line)
  }

  function TotalOf(nodes: seq<LogEntry>): nat {
    if nodes == [] then 0 else nodes[0].len + TotalOf(nodes[1..])
  }

  function Join(lines: seq<bytes>): bytes {
    if lines == [] then [] else lines[0] + Join(lines[1..])
  }

  /** The lines of two lists one after the other; of one line, the line. */
  lemma {:induction false} JoinBoth(a: seq<bytes>, b: seq<bytes>)
    ensures Join(a + b) == Join(a) + Join(b)
    ensures |a| == 1 ==> Join(a) == a[0]
  {
    if a == [] {
      assert a + b == b;
    } else {
      assert (a + b)[0] == a[0] && (a + b)[1..] == a[1..] + b;
      JoinBoth(a[1..], b);
      Joined(a[0], Join(a[1..]), Join(b));
    }
  }

  /** The last `keep` lines. */
  function Last(lines: seq<bytes>, keep: nat): seq<bytes> {
    if |lines| <= keep then lines else lines[|lines| - keep..]
  }

  /** All but the first ones, and all if there are no more. */
  lemma LastSuffix(lines: seq<bytes>, keep: nat)
    ensures |Last(lines, keep)| == if |lines| < keep then |lines| else keep
    ensures lines[|lines| - |Last(lines, keep)|..] == Last(lines, keep)
  {
  }

  lemma {:induction false} TotalSnoc(nodes: seq<LogEntry>, e: LogEntry)
    ensures TotalOf(nodes + [e]) == TotalOf(nodes) + e.len
  {
    if nodes == [] {
      assert nodes + [e] == [e];
    } else {
      assert (nodes + [e])[1..] == nodes[1..] + [e];
      TotalSnoc(nodes[1..], e);
    }
  }

  function FirstNode(nodes: seq<LogEntry>): LogEntry? { if nodes == [] then null else nodes[0] }

  function LastNode(nodes: seq<LogEntry>): LogEntry? { if nodes == [] then null else nodes[|nodes| - 1] }

  /** The nodes are distinct and linked one to the next. */
  ghost predicate Chained(nodes: seq<LogEntry>)
    reads nodes
  {
    && (forall i, j :: 0 <= i < j < |nodes| ==> nodes[i] != nodes[j])
    && (forall i, j :: 0 <= i < |nodes| && j == i + 1 && j < |nodes| ==> nodes[i].next == nodes[j])
    && (nodes != [] ==> nodes[|nodes| - 1].next == null)
    && (forall i :: 0 <= i < |nodes| ==> nodes[i].len == |nodes[i].line| + 1)
  }

  lemma ChainRest(nodes: seq<LogEntry>)
    requires Chained(nodes) && nodes != []
    ensures Chained(nodes[1..]) && nodes[0].next == FirstNode(nodes[1..])
    ensures nodes[0].len == |nodes[0].line| + 1
    ensures TotalOf(nodes) == nodes[0].len + TotalOf(nodes[1..])
    ensures |nodes| > 1 ==> LastNode(nodes[1..]) == LastNode(nodes)
  {
    var rest := nodes[1..];
    assert |nodes| > 1 ==> nodes[0].next == nodes[1];
  }

  class Log {
    var keepEntries: nat
    var entries: nat
    var total: int
    var logHead: LogEntry?
    // The address of the link to write next: that of `logHead`, or of an entry's `next`.
    var logTail: LogEntry?
    // What has been sent to the log file.
    var file: bytes
    ghost var nodes: seq<LogEntry>

    constructor ()
      ensures Usable() && TailRight() && Lines() == [] && keepEntries == 0 && nodes == [] && file == []
    {
      keepEntries, entries, total := 0, 0, 0;
      logHead, logTail := null, null;
      file := [];
      nodes := [];
    }

    ghost function Lines(): seq<bytes>
      reads this
    {
      LinesOf(nodes)
    }

    /** The list and its counters, without the tail. */
    ghost predicate Linked()
      reads this, nodes
    {
      && Chained(nodes) && logHead == FirstNode(nodes)
      && entries == |nodes| && entries <= keepEntries
      && total == TotalOf(nodes)
    }

    /** The tail is the address of the list's last link. */
    ghost predicate TailRight()
      reads this
    {
      logTail == LastNode(nodes)
    }

    /** Nothing has been lost so far: a stale tail is met with an empty list only. */
    ghost predicate Usable()
      reads this, nodes
    {
      Linked() && (TailRight() || nodes == [])
    }

    /** Writes `entry` through the tail link and moves the tail to it. */
    method PushTail(entry: LogEntry)
      requires Linked() && (TailRight() || nodes == [])
      requires entry !in nodes && entry != logTail && entry.next == null && entry.len == |entry.line| + 1
      modifies this, logTail
      ensures keepEntries == old(keepEntries) && entries == old(entries) && file == old(file)
      ensures logTail == entry && total == old(total) + entry.len
      ensures old(TailRight()) ==>
        nodes == old(nodes) + [entry] && Chained(nodes) && logHead == FirstNode(nodes) && total == TotalOf(nodes)
      ensures !old(TailRight()) ==> nodes == [] && logHead == null
    {
      hide TotalOf;
      ghost var reached := TailRight();
      total := total + entry.len;
      TotalSnoc(nodes, entry);
      if logTail == null { logHead := entry; } else { logTail.next := entry; }
      logTail := entry;
      if reached { nodes := nodes + [entry]; }
    }

    /** Takes the oldest entry off the list. */
    method DropOldest()
      requires Chained(nodes) && nodes != [] && logHead == nodes[0] && total == TotalOf(nodes)
      modifies `logHead, `total, `nodes
      ensures nodes == old(nodes)[1..] && Chained(nodes) && logHead == FirstNode(nodes) && total == TotalOf(nodes)
    {
      hide Chained, TotalOf;
      ChainRest(nodes);
      var toGo := logHead;
      logHead := toGo.next;
      total := total - toGo.len;
      nodes := nodes[1..];
    }

    /** `create_log_entry`: writes the line to the file and, if any lines are kept, queues it,
        pushing out the oldest when the queue is full. With a stale tail, which only an empty
        queue can have, the line is counted but cannot be reached. */
    method CreateEntry(pre: bytes, line: bytes) returns (r: nat)
      requires Usable()
      modifies this, logTail
      ensures keepEntries == old(keepEntries) && file == old(file) + pre + line + [10]
      ensures r == |pre| + |line| + (if keepEntries == 0 then 1 else 2)
      ensures keepEntries == 0 ==> Usable() && nodes == old(nodes) && logTail == old(logTail)
      ensures keepEntries > 0 && old(TailRight()) ==>
        Usable() && TailRight() && Lines() == Last(old(Lines()) + [pre + line + [LF]], keepEntries)
      ensures forall n <- nodes :: n in old(nodes) || fresh(n)
      ensures logTail == old(logTail) || fresh(logTail)
      ensures keepEntries > 0 && !old(TailRight()) ==>
        nodes == [] && Lines() == [] && logHead == null && entries == 1
    {
      hide Chained, TotalOf, Last;
      var text := pre + line + [LF];
      file := file + text;
      assert file == old(file) + pre + line + [LF];
      if keepEntries == 0 {
        return |text|;
      }
      r := Enqueue(text);
    }

    /** Queues a line, the oldest leaving a full queue. */
    method Enqueue(text: bytes) returns (r: nat)
      requires Usable() && keepEntries > 0
      modifies this, logTail
      ensures keepEntries == old(keepEntries) && file == old(file) && r == |text| + 1
      ensures old(TailRight()) ==>
        Usable() && TailRight() && Lines() == Last(old(Lines()) + [text], keepEntries)
      ensures forall n <- nodes :: n in old(nodes) || fresh(n)
      ensures logTail == old(logTail) || fresh(logTail)
      ensures !old(TailRight()) ==> nodes == [] && Lines() == [] && logHead == null && entries == 1
    {
      hide Chained, TotalOf;
      ghost var lines := Lines();
      assert allocated(nodes);
      var entry := new LogEntry(text);
      PushTail(entry);
      assert old(TailRight()) ==> Lines() == lines + [text];
      if entries >= keepEntries {
        DropOldest();
      } else {
        entries := entries + 1;
      }
      return entry.len;
    }

    /** `log_set_lines_kept`. The tail is right afterwards exactly if it was and the list has
        not been emptied; a stale tail stays stale. */
    method SetLinesKept(count: nat)
      requires Usable()
      modifies this
      ensures Usable() && keepEntries == count && file == old(file)
      ensures Lines() == Last(old(Lines()), count)
      ensures TailRight() <==> old(TailRight()) && (count > 0 || old(nodes) == [])
      ensures logTail == old(logTail) && forall n <- nodes :: n in old(nodes)
    {
      hide Chained, TotalOf, LinesOf, Last;
      keepEntries := count;
      ghost var n := |nodes|;
      while entries > count
        invariant keepEntries == count && file == old(file) && logTail == old(logTail)
        invariant |nodes| <= n && nodes == old(nodes)[n - |nodes|..]
        invariant |nodes| < n ==> |nodes| >= count
        invariant entries == |nodes| && Chained(nodes) && logHead == FirstNode(nodes) && total == TotalOf(nodes)
        decreases entries
      {
        DropOldest();
        entries := entries - 1;
      }
      LinesAfter(old(nodes), n - |nodes|);
      LastAfter(old(Lines()), count, n - |nodes|);
    }

    /** `log_contents`: the kept lines in one text, and the reported length. */
    method Contents() returns (contents: bytes, len: nat)
      requires Linked()
      ensures contents == Join(Lines()) && len == total && |contents| == total - entries
    {
      hide Chained, TotalOf, Join, LinesOf;
      var remain := total + 1;
      contents, len := [], total;
      var entry := logHead;
      ghost var rest := nodes;
      while entry != null
        invariant Chained(rest) && entry == FirstNode(rest)
        invariant remain >= 1 + TotalOf(rest)
        invariant contents + Join(LinesOf(rest)) == Join(LinesOf(nodes))
        invariant |contents| + entries - |rest| + TotalOf(rest) == total
        decreases rest
      {
        ChainRest(rest);
        JoinFirst(rest);
        var n := |entry.line|;
        contents := contents + entry.line[..if n < remain then n else remain - 1];
        remain := remain - n;
        entry := entry.next;
        rest := rest[1..];
      }
      JoinNone(rest);
    }
  }

  lemma LinesAfter(nodes: seq<LogEntry>, k: nat)
    requires k <= |nodes|
    ensures LinesOf(nodes[k..]) == LinesOf(nodes)[k..]
  {
  }

  lemma LastAfter(lines: seq<bytes>, keep: nat, k: nat)
    requires k <= |lines| && k == if |lines| <= keep then 0 else |lines| - keep
    ensures Last(lines, keep) == lines[k..]
  {
  }

  lemma JoinFirst(nodes: seq<LogEntry>)
    requires nodes != []
    ensures Join(LinesOf(nodes)) == nodes[0].line + Join(LinesOf(nodes[1..]))
  {
    assert LinesOf(nodes)[1..] == LinesOf(nodes[1..]);
  }

  lemma JoinNone(nodes: seq<LogEntry>)
    ensures nodes == [] ==> Join(LinesOf(nodes)) == [] && TotalOf(nodes) == 0
  {
  }

  // --------------------------------------------------------------------- runs

  datatype Op = Add(pre: bytes, line: bytes) | Keep(count: nat)

  /** What a bounded queue holds after a run. */
  function Queue(ops: seq<Op>, keep: nat, lines: seq<bytes>): seq<bytes>
    decreases |ops|
  {
    if ops == [] then lines
    else match ops[0]
      case Add(pre, line) => Queue(ops[1..], keep, if keep == 0 then lines else Last(lines + [pre + line + [LF]], keep))
      case Keep(count) => Queue(ops[1..], count, Last(lines, count))
  }

  /** Whether a line of the run is lost: one is queued after a 0 has emptied a list that was
      not empty. `stale` says that this has happened before. */
  predicate Loses(ops: seq<Op>, keep: nat, lines: seq<bytes>, stale: bool)
    decreases |ops|
  {
    if ops == [] then false
    else match ops[0]
      case Add(pre, line) =>
        if keep == 0 then Loses(ops[1..], keep, lines, stale)
        else stale || Loses(ops[1..], keep, Last(lines + [pre + line + [LF]], keep), stale)
      case Keep(count) => Loses(ops[1..], count, Last(lines, count), stale || (count == 0 && lines != []))
  }

  /** While every count is positive nothing is lost. */
  lemma {:induction false} PositiveLosesNone(ops: seq<Op>, keep: nat, lines: seq<bytes>)
    requires forall i :: 0 <= i < |ops| && ops[i].Keep? ==> ops[i].count > 0
    ensures !Loses(ops, keep, lines, false)
    decreases |ops|
  {
    if ops == [] {
    } else {
      match ops[0]
      case Add(pre, line) =>
        PositiveLosesNone(ops[1..], keep, if keep == 0 then lines else Last(lines + [pre + line + [LF]], keep));
      case Keep(count) => PositiveLosesNone(ops[1..], count, Last(lines, count));
    }
  }

  /** A count of 0 as the first count after lines, with a positive one and a line after it,
      loses that line if and only if a line was queued when the 0 came. */
  lemma ZeroLoses(lines: seq<bytes>, keep: nat, count: nat, pre: bytes, line: bytes, more: seq<Op>)
    requires count > 0
    ensures var ops := [Keep(0), Keep(count), Add(pre, line)] + more;
      lines != [] ==> Loses(ops, keep, lines, false)
    ensures lines == [] ==>
      (Loses([Keep(0)] + more, keep, lines, false) <==> Loses(more, 0, lines, false))
  {
    hide Last;
    var ops := [Keep(0), Keep(count), Add(pre, line)] + more;
    assert ops[1..] == [Keep(count), Add(pre, line)] + more && ops[1..][1..] == [Add(pre, line)] + more;
    assert Loses(ops[1..][1..], count, Last(Last(lines, 0), count), true);
    assert Loses(ops[1..], 0, Last(lines, 0), true);
    assert ([Keep(0)] + more)[1..] == more;
    LastOfNone();
  }

  lemma LastOfNone()
    ensures Last([], 0) == []
  {
  }

  /** Any run of entries and counts, 0 among them, up to the first line that is lost: until then
      the list equals a bounded queue, and a line is lost if and only if the run says so. The
      lost line is counted and cannot be reached. */
  method Run(log: Log, ops: seq<Op>) returns (done: nat)
    requires log.Usable()
    modifies log, log.nodes, log.logTail
    ensures done <= |ops|
    ensures done == |ops| ==>
      log.Usable() && log.Lines() == Queue(ops, old(log.keepEntries), old(log.Lines()))
    ensures done < |ops| <==> Loses(ops, old(log.keepEntries), old(log.Lines()), !old(log.TailRight()))
    ensures done < |ops| ==>
      && ops[done].Add? && log.keepEntries > 0
      && log.Lines() == [] && log.logHead == null && log.entries == 1
  {
    hide Chained, TotalOf, LinesOf, Last;
    done := 0;
    while done < |ops|
      invariant done <= |ops| && log.Usable()
      invariant forall n <- log.nodes :: n in old(log.nodes) || fresh(n)
      invariant log.logTail == old(log.logTail) || fresh(log.logTail)
      invariant Queue(ops[done..], log.keepEntries, log.Lines()) == Queue(ops, old(log.keepEntries), old(log.Lines()))
      invariant Loses(ops[done..], log.keepEntries, log.Lines(), !log.TailRight())
        <==> Loses(ops, old(log.keepEntries), old(log.Lines()), !old(log.TailRight()))
    {
      assert ops[done..][1..] == ops[done + 1..];
      match ops[done] {
        case Add(pre, line) =>
          var r := log.CreateEntry(pre, line);
          if log.entries > 0 && log.logHead == null {
            return;
          }
        case Keep(count) => log.SetLinesKept(count);
      }
      done := done + 1;
    }
  }

  /** One line kept, a line, none kept, five kept, a line: one entry counted and none to be
      reached, where the queue would hold the second line. */
  method LostLine(first: bytes, second: bytes) returns (log: Log)
    ensures log.entries == 1 && log.logHead == null && log.Lines() == []
    ensures Queue([Keep(1), Add([], first), Keep(0), Keep(5), Add([], second)], 0, []) == [second + [LF]]
  {
    hide Chained, TotalOf, LinesOf;
    var ops := [Keep(1), Add([], first), Keep(0), Keep(5), Add([], second)];
    assert Loses(ops, 0, [], false) && Queue(ops, 0, []) == [second + [LF]] by { Walk(first, second); }
    log := new Log();
    var done := Run(log, ops);
  }

  lemma Walk(first: bytes, second: bytes)
    ensures var ops := [Keep(1), Add([], first), Keep(0), Keep(5), Add([], second)];
      Loses(ops, 0, [], false) && Queue(ops, 0, []) == [second + [LF]]
  {
    var e := Add([], second);
    var ops := [Keep(1), Add([], first), Keep(0), Keep(5), e];
    var o1, o2, o3, o4 := ops[1..], ops[2..], ops[3..], ops[4..];
    assert o1[1..] == o2 && o2[1..] == o3 && o3[1..] == o4 && o4[1..] == [];
    var x, y := [] + first + [LF], [] + second + [LF];
    assert y == second + [LF];
    assert Queue(o4, 5, []) == [y] && Loses(o4, 5, [], true);
    assert Queue(o3, 0, []) == [y] && Loses(o3, 0, [], true);
    assert Last([x], 0) == [];
    assert Queue(o2, 1, [x]) == [y] && Loses(o2, 1, [x], false);
    assert Queue(o1, 1, []) == [y] && Loses(o1, 1, [], false);
  }

  /** The lines a run adds. */
  function Added(ops: seq<Op>): seq<bytes> {
    if ops == [] then []
    else (if ops[0].Add? then [ops[0].pre + ops[0].line + [LF]] else []) + Added(ops[1..])
  }

  lemma LastSnoc(lines: seq<bytes>, x: bytes, keep: nat)
    requires keep > 0
    ensures Last(Last(lines, keep) + [x], keep) == Last(lines + [x], keep)
  {
  }

  /** While the number of lines stays the same, the queue holds the last that many of all the
      lines there have been. */
  lemma {:induction false} QueueIsLast(lines: seq<bytes>, more: seq<Op>, keep: nat)
    requires keep > 0 && forall i :: 0 <= i < |more| ==> more[i].Add?
    ensures Queue(more, keep, Last(lines, keep)) == Last(lines + Added(more), keep)
    decreases |more|
  {
    hide Last;
    if more == [] {
      assert lines + Added(more) == lines;
    } else {
      var x := more[0].pre + more[0].line + [LF];
      LastSnoc(lines, x, keep);
      QueueIsLast(lines + [x], more[1..], keep);
      assert lines + Added(more) == lines + [x] + Added(more[1..]);
    }
  }
}
