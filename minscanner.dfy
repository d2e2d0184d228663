/**
 * The port scanner: the batching loop that starts one worker per port and
 * joins the workers whenever `threads` of them are outstanding, the check
 * that only a successful `connect_ex` prints, the open-port line, and the
 * banner read. Starting and joining a worker are modelled as events of a
 * trace; the socket outcomes are inputs.
 */
module PortScanner {

  import opened Wrappers
  import opened Text

  // ---------------------------------------------------------------------
  // Dispatch: the loop of `main`
  // ---------------------------------------------------------------------

  /** `t.start()` for the worker of a port, or `t.join()` on it. */
  datatype Event = Start(port: int) | Join(port: int)

  /** `range(lo, hi + 1)`: the ports `lo..hi` in increasing order, empty when `hi < lo`. */
  function Range(lo: int, hi: int): (r: seq<int>)
    ensures |r| == if hi < lo then 0 else hi - lo + 1
    ensures forall k :: 0 <= k < |r| ==> r[k] == lo + k
    decreases hi - lo
  {
    if hi < lo then [] else Range(lo, hi - 1) + [hi]
  }

  /**
   * How many workers the loop lets accumulate before it joins them: the
   * test `len(thread_list) >= threads` after one append holds at once when
   * `threads <= 0`.
   */
  function Capacity(threads: int): (b: nat)
    ensures b >= 1 && (threads >= 1 ==> b == threads)
  {
    if threads >= 1 then threads else 1
  }

  function StartAll(ports: seq<int>): (r: seq<Event>)
    ensures |r| == |ports| && forall k :: 0 <= k < |r| ==> r[k] == Start(ports[k])
    decreases |ports|
  {
    if ports == [] then [] else [Start(ports[0])] + StartAll(ports[1..])
  }

  function JoinAll(ports: seq<int>): (r: seq<Event>)
    ensures |r| == |ports| && forall k :: 0 <= k < |r| ==> r[k] == Join(ports[k])
    decreases |ports|
  {
    if ports == [] then [] else [Join(ports[0])] + JoinAll(ports[1..])
  }

  /** The ports cut, front to back, into groups of `b`; only the last group may be shorter. */
  function Batches(ports: seq<int>, b: nat): seq<seq<int>>
    requires b >= 1
    decreases |ports|
  {
    if |ports| <= b then (if ports == [] then [] else [ports])
    else [ports[..b]] + Batches(ports[b..], b)
  }

  /** Each group is started worker by worker, then joined worker by worker. */
  function Run(batches: seq<seq<int>>): seq<Event>
    decreases |batches|
  {
    if batches == [] then [] else StartAll(batches[0]) + JoinAll(batches[0]) + Run(batches[1..])
  }

  /** The schedule the loop follows for `range(start, end + 1)` and the given `threads`. */
  function Schedule(start: int, end: int, threads: int): seq<Event> {
    Run(Batches(Range(start, end), Capacity(threads)))
  }

  /**
   * The loop of `main` with workers as events: for each port of
   * `range(start, end + 1)`, append and start, and join all once
   * `len(thread_list) >= threads`; join what is left after the loop.
   */
  method Dispatch(start: int, end: int, threads: int) returns (trace: seq<Event>)
    ensures trace == Schedule(start, end, threads)
  {
    var ports := Range(start, end);
    ghost var done: seq<int> := [];
    var threadList: seq<int> := [];
    trace := [];
    var k := 0;
    while k < |ports|
      invariant 0 <= k <= |ports|
      invariant Dispatched(ports[..k], threads, done, threadList, trace)
    {
      var port := ports[k];
      ghost var done0, list0, trace0 := done, threadList, trace;
      assert ports[..k + 1] == ports[..k] + [port];
      threadList := threadList + [port];
      trace := trace + [Start(port)];
      if |threadList| >= threads {
        trace := trace + JoinAll(threadList);
        done := done + threadList;
        threadList := [];
        JoinStep(ports[..k], port, threads, done0, list0, trace0);
      } else {
        StartStep(ports[..k], port, threads, done0, list0, trace0);
      }
      k := k + 1;
    }
    assert ports[..k] == ports;
    FinalJoin(ports, threads, done, threadList, trace);
    trace := trace + JoinAll(threadList);
  }

  /** `done` is made of whole groups of `b`: every group of `Batches(done, b)` is full. */
  predicate FullGroups(done: seq<int>, b: nat)
    requires b >= 1
    decreases |done|
  {
    done == [] || (|done| >= b && FullGroups(done[b..], b))
  }

  /** A full group appended to whole groups gives whole groups. */
  lemma {:induction false} FullGroupsAppend(done: seq<int>, group: seq<int>, b: nat)
    requires b >= 1 && FullGroups(done, b) && |group| == b
    ensures FullGroups(done + group, b)
    decreases |done|
  {
    if done == [] {
      assert done + group == group;
      assert group[b..] == [];
    } else {
      assert (done + group)[b..] == done[b..] + group;
      FullGroupsAppend(done[b..], group, b);
    }
  }

  /**
   * The state of the loop after the ports `seen`: they are the joined
   * groups `done` followed by the outstanding `threadList`, fewer than the
   * capacity, and the trace is the schedule of `done` followed by the
   * starts of `threadList`.
   */
  ghost predicate Dispatched(seen: seq<int>, threads: int, done: seq<int>, threadList: seq<int>, trace: seq<Event>) {
    done + threadList == seen
    && |threadList| < Capacity(threads)
    && FullGroups(done, Capacity(threads))
    && trace == Run(Batches(done, Capacity(threads))) + StartAll(threadList)
  }

  /** A port started without reaching `threads` outstanding workers. */
  lemma StartStep(seen: seq<int>, port: int, threads: int, done: seq<int>, threadList: seq<int>, trace: seq<Event>)
    requires Dispatched(seen, threads, done, threadList, trace)
    requires |threadList + [port]| < threads
    ensures Dispatched(seen + [port], threads, done, threadList + [port], trace + [Start(port)])
  {
    AppendPort(done, threadList, port, Run(Batches(done, Capacity(threads))));
  }

  /** A port started that brings the outstanding workers to `threads`: all of them are joined. */
  lemma JoinStep(seen: seq<int>, port: int, threads: int, done: seq<int>, threadList: seq<int>, trace: seq<Event>)
    requires Dispatched(seen, threads, done, threadList, trace)
    requires |threadList + [port]| >= threads
    ensures Dispatched(seen + [port], threads, done + (threadList + [port]), [],
                       trace + [Start(port)] + JoinAll(threadList + [port]))
  {
    var b := Capacity(threads);
    var group := threadList + [port];
    AppendPort(done, threadList, port, Run(Batches(done, b)));
    CloseGroup(done, group, b);
    FullGroupsAppend(done, group, b);
    assert done + group + [] == done + group;
  }

  /** One more port appended and started keeps the loop invariant's two equations. */
  lemma AppendPort(done: seq<int>, threadList: seq<int>, port: int, head: seq<Event>)
    ensures done + (threadList + [port]) == (done + threadList) + [port]
    ensures head + StartAll(threadList) + [Start(port)] == head + StartAll(threadList + [port])
  {
    assert StartAll(threadList + [port]) == StartAll(threadList) + [Start(port)];
  }

  /** Joining the workers left after the loop completes the schedule. */
  lemma FinalJoin(ports: seq<int>, threads: int, done: seq<int>, threadList: seq<int>, trace: seq<Event>)
    requires Dispatched(ports, threads, done, threadList, trace)
    ensures trace + JoinAll(threadList) == Run(Batches(ports, Capacity(threads)))
  {
    if threadList != [] {
      CloseGroup(done, threadList, Capacity(threads));
    } else {
      assert done + threadList == done;
    }
  }

  /** Joining a group of at most `b` workers after full groups extends the schedule by that group. */
  lemma CloseGroup(done: seq<int>, group: seq<int>, b: nat)
    requires b >= 1 && 1 <= |group| <= b
    requires FullGroups(done, b)
    ensures Batches(done + group, b) == Batches(done, b) + [group]
    ensures Run(Batches(done, b)) + StartAll(group) + JoinAll(group) == Run(Batches(done + group, b))
  {
    BatchesAppend(done, group, b);
    RunAppend(Batches(done, b), group);
  }

  lemma {:induction false} BatchesAppend(done: seq<int>, group: seq<int>, b: nat)
    requires b >= 1 && 1 <= |group| <= b
    requires FullGroups(done, b)
    ensures Batches(done + group, b) == Batches(done, b) + [group]
    decreases |done|
  {
    if done == [] {
      assert done + group == group;
    } else if |done| == b {
      assert Batches(done, b) == [done];
      var all := done + group;
      assert all[..b] == done && all[b..] == group;
    } else {
      var all := done + group;
      assert Batches(done, b) == [done[..b]] + Batches(done[b..], b);
      assert all[..b] == done[..b];
      assert all[b..] == done[b..] + group;
      BatchesAppend(done[b..], group, b);
    }
  }

  lemma {:induction false} RunAppend(batches: seq<seq<int>>, group: seq<int>)
    ensures Run(batches + [group]) == Run(batches) + StartAll(group) + JoinAll(group)
    decreases |batches|
  {
    var all := batches + [group];
    if batches != [] {
      assert all[0] == batches[0] && all[1..] == batches[1..] + [group];
      RunAppend(batches[1..], group);
      assert Run(all) == StartAll(batches[0]) + JoinAll(batches[0]) + Run(batches[1..] + [group]);
      assert Run(batches) == StartAll(batches[0]) + JoinAll(batches[0]) + Run(batches[1..]);
      Regroup(StartAll(batches[0]) + JoinAll(batches[0]), Run(batches[1..]), StartAll(group), JoinAll(group));
    } else {
      assert all[0] == group && all[1..] == [];
    }
  }

  lemma Regroup<T>(a: seq<T>, b: seq<T>, c: seq<T>, d: seq<T>)
    ensures a + (b + c + d) == a + b + c + d
  {
  }

  // ---------------------------------------------------------------------
  // What the schedule guarantees
  // ---------------------------------------------------------------------

  /** The ports of the `Start` events, in trace order. */
  function Started(trace: seq<Event>): seq<int>
    decreases |trace|
  {
    if trace == [] then []
    else (if trace[0].Start? then [trace[0].port] else []) + Started(trace[1..])
  }

  /** The ports of the `Join` events, in trace order. */
  function Joined(trace: seq<Event>): seq<int>
    decreases |trace|
  {
    if trace == [] then []
    else (if trace[0].Join? then [trace[0].port] else []) + Joined(trace[1..])
  }

  lemma {:induction false} StartedJoinedConcat(s: seq<Event>, t: seq<Event>)
    ensures Started(s + t) == Started(s) + Started(t)
    ensures Joined(s + t) == Joined(s) + Joined(t)
    decreases |s|
  {
    if s != [] {
      assert (s + t)[1..] == s[1..] + t;
      StartedJoinedConcat(s[1..], t);
    } else {
      assert s + t == t;
    }
  }

  lemma {:induction false} StartAllProjections(ports: seq<int>)
    ensures Started(StartAll(ports)) == ports && Joined(StartAll(ports)) == []
    ensures Started(JoinAll(ports)) == [] && Joined(JoinAll(ports)) == ports
    decreases |ports|
  {
    if ports != [] {
      StartAllProjections(ports[1..]);
      StartedJoinedConcat([Start(ports[0])], StartAll(ports[1..]));
      StartedJoinedConcat([Join(ports[0])], JoinAll(ports[1..]));
    }
  }

  function Flatten(batches: seq<seq<int>>): seq<int>
    decreases |batches|
  {
    if batches == [] then [] else batches[0] + Flatten(batches[1..])
  }

  lemma {:induction false} RunProjections(batches: seq<seq<int>>)
    ensures Started(Run(batches)) == Flatten(batches)
    ensures Joined(Run(batches)) == Flatten(batches)
    decreases |batches|
  {
    if batches != [] {
      RunProjections(batches[1..]);
      StartAllProjections(batches[0]);
      StartedJoinedConcat(StartAll(batches[0]), JoinAll(batches[0]));
      StartedJoinedConcat(StartAll(batches[0]) + JoinAll(batches[0]), Run(batches[1..]));
    }
  }

  lemma {:induction false} BatchesFlatten(ports: seq<int>, b: nat)
    requires b >= 1
    ensures Flatten(Batches(ports, b)) == ports
    decreases |ports|
  {
    if |ports| > b {
      BatchesFlatten(ports[b..], b);
      assert ports == ports[..b] + ports[b..];
    }
  }

  /**
   * Every port of `range(start, end + 1)` is started exactly once, in
   * increasing order, and joined exactly once, in the same order.
   */
  lemma EveryPortOnce(start: int, end: int, threads: int)
    ensures Started(Schedule(start, end, threads)) == Range(start, end)
    ensures Joined(Schedule(start, end, threads)) == Range(start, end)
  {
    RunProjections(Batches(Range(start, end), Capacity(threads)));
    BatchesFlatten(Range(start, end), Capacity(threads));
  }

  /** With `start > end` the loop body never runs: no worker at all. */
  lemma EmptyRange(start: int, end: int, threads: int)
    requires start > end
    ensures Schedule(start, end, threads) == []
  {
  }

  /**
   * The groups the loop joins: there is one exactly when there is a port;
   * every group before the last has exactly `b` ports; the last has
   * between 1 and `b`, and all groups together hold every port.
   */
  lemma {:induction false} BatchSizes(ports: seq<int>, b: nat)
    requires b >= 1
    ensures var bs := Batches(ports, b);
      && (bs == [] <==> ports == [])
      && (forall k :: 0 <= k < |bs| - 1 ==> |bs[k]| == b)
      && (bs != [] ==> 1 <= |bs[|bs| - 1]| <= b && |ports| == (|bs| - 1) * b + |bs[|bs| - 1]|)
    decreases |ports|
  {
    var bs := Batches(ports, b);
    if |ports| > b {
      BatchSizes(ports[b..], b);
      var rest := Batches(ports[b..], b);
      assert bs == [ports[..b]] + rest;
      assert bs[|bs| - 1] == rest[|rest| - 1];
      assert (|bs| - 1) * b == (|rest| - 1) * b + b;
    }
  }

  /**
   * The batch sizes of the dispatch loop: groups of `max(threads, 1)` ports,
   * the last one possibly shorter. The last group is full, so nothing is
   * left to join after the loop, exactly when the number of ports is the
   * number of groups times `max(threads, 1)`.
   */
  lemma ScheduleBatches(start: int, end: int, threads: int)
    ensures var bs := Batches(Range(start, end), Capacity(threads));
      && Schedule(start, end, threads) == Run(bs)
      && (bs == [] <==> start > end)
      && (forall k :: 0 <= k < |bs| - 1 ==> |bs[k]| == Capacity(threads))
      && (bs != [] ==> 1 <= |bs[|bs| - 1]| <= Capacity(threads))
      && (bs != [] ==> (|bs[|bs| - 1]| == Capacity(threads)
                        <==> |Range(start, end)| == |bs| * Capacity(threads)))
  {
    var b := Capacity(threads);
    var bs := Batches(Range(start, end), b);
    BatchSizes(Range(start, end), b);
    if bs != [] {
      assert |bs| * b == (|bs| - 1) * b + b;
    }
  }

  /** With `threads <= 0` every group holds a single port. */
  lemma NonPositiveThreads(start: int, end: int, threads: int)
    requires threads <= 0
    ensures forall g :: g in Batches(Range(start, end), Capacity(threads)) ==> |g| == 1
  {
    var bs := Batches(Range(start, end), 1);
    BatchSizes(Range(start, end), 1);
    forall g | g in bs ensures |g| == 1 {
      var k :| 0 <= k < |bs| && bs[k] == g;
    }
  }

  /**
   * At every point of the run the workers joined so far are a prefix of the
   * workers started so far (a worker is joined only after it was started,
   * in start order), and at most `b` started workers are not yet joined.
   */
  predicate Outstanding(trace: seq<Event>, b: nat) {
    var s, j := Started(trace), Joined(trace);
    |j| <= |s| && s[..|j|] == j && |s| - |j| <= b
  }

  lemma {:induction false} GroupPrefixes(group: seq<int>, b: nat, k: nat)
    requires |group| <= b && k <= 2 * |group|
    ensures Outstanding((StartAll(group) + JoinAll(group))[..k], b)
  {
    var ev := StartAll(group) + JoinAll(group);
    StartAllProjections(group);
    if k <= |group| {
      assert ev[..k] == StartAll(group[..k]);
      StartAllProjections(group[..k]);
    } else {
      assert ev[..k] == StartAll(group) + JoinAll(group[..k - |group|]);
      StartAllProjections(group[..k - |group|]);
      StartedJoinedConcat(StartAll(group), JoinAll(group[..k - |group|]));
    }
  }

  lemma {:induction false} RunPrefixes(batches: seq<seq<int>>, b: nat, k: nat)
    requires forall g :: g in batches ==> |g| <= b
    requires k <= |Run(batches)|
    ensures Outstanding(Run(batches)[..k], b)
    decreases |batches|
  {
    if batches != [] {
      var g := batches[0];
      var head := StartAll(g) + JoinAll(g);
      var rest := Run(batches[1..]);
      assert Run(batches) == head + rest;
      if k <= |head| {
        assert Run(batches)[..k] == head[..k];
        GroupPrefixes(g, b, k);
      } else {
        assert Run(batches)[..k] == head + rest[..k - |head|];
        forall h | h in batches[1..] ensures |h| <= b {
          assert h in batches;
        }
        RunPrefixes(batches[1..], b, k - |head|);
        AfterGroup(g, rest[..k - |head|], b);
      }
    }
  }

  /** A completed group in front of a trace does not change what is outstanding. */
  lemma AfterGroup(g: seq<int>, t: seq<Event>, b: nat)
    requires Outstanding(t, b)
    ensures Outstanding(StartAll(g) + JoinAll(g) + t, b)
  {
    StartAllProjections(g);
    StartedJoinedConcat(StartAll(g), JoinAll(g));
    StartedJoinedConcat(StartAll(g) + JoinAll(g), t);
    var s, j := Started(t), Joined(t);
    assert (g + s)[..|g| + |j|] == g + s[..|j|];
  }

  /**
   * The concurrency bound of the loop: at no point are more than
   * `max(threads, 1)` workers started and not yet joined, and after the
   * final join none is left.
   */
  lemma InFlightBound(start: int, end: int, threads: int)
    ensures var t := Schedule(start, end, threads);
      (forall k :: 0 <= k <= |t| ==> Outstanding(t[..k], Capacity(threads)))
      && Started(t) == Joined(t)
  {
    var b := Capacity(threads);
    var bs := Batches(Range(start, end), b);
    BatchSizes(Range(start, end), b);
    forall g | g in bs ensures |g| <= b {
      var k :| 0 <= k < |bs| && bs[k] == g;
    }
    forall k | 0 <= k <= |Run(bs)| ensures Outstanding(Run(bs)[..k], b) {
      RunPrefixes(bs, b, k);
    }
    EveryPortOnce(start, end, threads);
  }

  // ---------------------------------------------------------------------
  // One worker: `scan` and `banner_grab`
  // ---------------------------------------------------------------------

  type byte = x: int | 0 <= x < 256

  /** The size handed to `recv`. */
  const RecvSize: nat := 1024

  /** What `connect_ex` did: returned an error indicator, or raised. */
  datatype Connect = Returned(code: int) | Raised

  /**
   * What the second connection of `banner_grab` met: `socket.socket()`
   * itself raised (no descriptor left, say), `connect` raised, `recv`
   * raised (a timeout, typically), or the peer had bytes waiting.
   */
  datatype Exchange = SocketFailed | ConnectFailed | RecvFailed | Received(pending: seq<byte>)

  /** `recv(1024)`: at most the first 1024 of the waiting bytes. */
  function Recv(pending: seq<byte>): (got: seq<byte>)
    ensures |got| <= RecvSize && |got| <= |pending| && got == pending[..|got|]
    ensures |pending| <= RecvSize ==> got == pending
  {
    if |pending| <= RecvSize then pending else pending[..RecvSize]
  }

  /**
   * `banner_grab`: the stripped text of at most 1024 received bytes, or ""
   * when connecting, receiving or decoding fails. `decode` is `bytes.decode()`
   * (UTF-8), `None` where it raises. When `socket.socket()` raises, `s` is
   * never bound, so `s.close()` in the `finally` raises in place of the
   * `return ""`: the call raises (`None`).
   */
  function BannerGrab(ex: Exchange, decode: seq<byte> -> Option<string>): (banner: Option<string>)
    ensures banner.None? <==> ex.SocketFailed?
    ensures banner.Some? ==> Trimmed(banner.value)
    ensures ex.ConnectFailed? || ex.RecvFailed? ==> banner == Some("")
    ensures ex.Received? && decode(Recv(ex.pending)).None? ==> banner == Some("")
    ensures ex.Received? && decode(Recv(ex.pending)).Some?
            ==> banner == Some(Strip(decode(Recv(ex.pending)).value))
  {
    match ex
    case SocketFailed => None
    case Received(pending) =>
      (match decode(Recv(pending))
       case Some(text) => Some(Strip(text))
       case None => Some(""))
    case _ => Some("")
  }

  const LinePrefix := "[+] Port "
  const LineOpen := " OPEN  "
  const BannerMark := "| "

  /** The line `scan` prints for an open port: `[+] Port <port> OPEN  ` and `| <banner>` when there is one. */
  function ReportLine(port: int, banner: string): (line: string)
    ensures StartsWith(line, LinePrefix + IntToString(port) + LineOpen)
    ensures ParseReport(line) == Some((port, banner))
  {
    var line := LinePrefix + IntToString(port) + LineOpen + (if banner != "" then BannerMark + banner else "");
    ReportLineParses(port, banner, line);
    line
  }

  /** The first position of `c` in `s`, or `|s|`. */
  function IndexOf(s: string, c: char): (i: nat)
    ensures i <= |s| && c !in s[..i] && (i < |s| ==> s[i] == c)
    decreases |s|
  {
    if s == [] then 0 else if s[0] == c then 0 else 1 + IndexOf(s[1..], c)
  }

  /** Reads a report line back into its port and banner. */
  function ParseReport(line: string): Option<(int, string)> {
    if !StartsWith(line, LinePrefix) then None
    else
      var rest := line[|LinePrefix|..];
      var n := IndexOf(rest, ' ');
      var tail := rest[n..];
      match ParseInt(rest[..n])
      case None => None
      case Some(port) =>
        if !StartsWith(tail, LineOpen) then None
        else
          var bannerPart := tail[|LineOpen|..];
          if bannerPart == "" then Some((port, ""))
          else if StartsWith(bannerPart, BannerMark) && |bannerPart| > |BannerMark|
          then Some((port, bannerPart[|BannerMark|..]))
          else None
  }

  lemma ReportLineParses(port: int, banner: string, line: string)
    requires line == LinePrefix + IntToString(port) + LineOpen + (if banner != "" then BannerMark + banner else "")
    ensures ParseReport(line) == Some((port, banner))
  {
    var digits := IntToString(port);
    var suffix := if banner != "" then BannerMark + banner else "";
    SplitReport(digits, suffix, line);
    IntToStringRoundTrip(port);
    if banner != "" {
      assert suffix[..|BannerMark|] == BannerMark && suffix[|BannerMark|..] == banner;
    }
  }

  /** The pieces `ParseReport` cuts a line into. */
  lemma SplitReport(digits: string, suffix: string, line: string)
    requires ' ' !in digits && line == LinePrefix + digits + LineOpen + suffix
    ensures StartsWith(line, LinePrefix)
    ensures IndexOf(line[|LinePrefix|..], ' ') == |digits|
    ensures line[|LinePrefix|..][..|digits|] == digits
    ensures StartsWith(line[|LinePrefix|..][|digits|..], LineOpen)
    ensures line[|LinePrefix|..][|digits|..][|LineOpen|..] == suffix
  {
    var rest := line[|LinePrefix|..];
    assert line[..|LinePrefix|] == LinePrefix;
    assert rest == digits + (LineOpen + suffix);
    IndexOfPast(digits, LineOpen + suffix);
    assert rest[|digits|..] == LineOpen + suffix;
  }

  lemma IndexOfPast(a: string, b: string)
    requires ' ' !in a && b != [] && b[0] == ' '
    ensures IndexOf(a + b, ' ') == |a|
    decreases |a|
  {
    if a != [] {
      assert (a + b)[1..] == a[1..] + b;
      IndexOfPast(a[1..], b);
    }
  }

  /**
   * `scan`: a line is printed only when `connect_ex` returned 0 and
   * `banner_grab` returned; any other code, or an exception in either
   * (which the bare `except` swallows), prints nothing.
   */
  function Scan(port: int, connect: Connect, ex: Exchange, decode: seq<byte> -> Option<string>): (printed: Option<string>)
    ensures printed.Some? <==> connect == Returned(0) && !ex.SocketFailed?
    ensures printed.Some? ==> ParseReport(printed.value) == Some((port, BannerGrab(ex, decode).value))
  {
    if connect == Returned(0) then
      match BannerGrab(ex, decode)
      case Some(banner) => Some(ReportLine(port, banner))
      case None => None
    else None
  }
}
