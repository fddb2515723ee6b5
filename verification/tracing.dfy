/** The topic-frequency scan of tracing-programs/main.go: six variants (freq, freqConcurrent,
    freqConcurrentSem, freqNumCPU, freqNumCPUTasks, freqActor) that search the RSS documents named
    by `docs` for `topic`. The file system is a map from file name to what the file holds; the
    goroutine schedule is a nondeterministic choice inside sequential loops, and a variant that
    can block forever returns an Option whose None stands for "never returns". */
module Tracing {
  import opened TopicMatch
  import opened Sets

  datatype Option<T> = None | Some(value: T)

  /** What a file holds: bytes that cannot be read, bytes that are not an RSS document, or an
      RSS document with its items. A name missing from the disk cannot be opened. */
  datatype FileState = Unreadable | Malformed | Rss(items: seq<Item>)

  type Disk = map<string, FileState>

  /** How fetching one document ends: failing at one of the three steps, or with its items. */
  datatype Outcome = OpenFailed | ReadFailed | DecodeFailed | Fetched(items: seq<Item>)

  /** `doc[:8]` panics on shorter ids. */
  predicate ValidId(doc: string) {
    |doc| >= 8
  }

  predicate ValidIds(docs: seq<string>) {
    forall k :: 0 <= k < |docs| ==> ValidId(docs[k])
  }

  /** fmt.Sprintf("%s.xml", doc[:8]): the first eight characters of the id and ".xml". */
  function FileName(doc: string): (name: string)
    requires ValidId(doc)
    ensures |name| == 12 && name[..8] == doc[..8] && name[8..] == ".xml"
  {
    doc[..8] + ".xml"
  }

  /** Open, read and decode the document's file. */
  function Fetch(disk: Disk, doc: string): (o: Outcome)
    requires ValidId(doc)
    ensures o.OpenFailed? <==> FileName(doc) !in disk
    ensures o.Fetched? <==> FileName(doc) in disk && disk[FileName(doc)].Rss?
    ensures o.Fetched? ==> o.items == disk[FileName(doc)].items
    ensures o.ReadFailed? <==> FileName(doc) in disk && disk[FileName(doc)].Unreadable?
    ensures o.DecodeFailed? <==> FileName(doc) in disk && disk[FileName(doc)].Malformed?
  {
    var name := FileName(doc);
    if name !in disk then OpenFailed
    else match disk[name]
      case Unreadable => ReadFailed
      case Malformed => DecodeFailed
      case Rss(items) => Fetched(items)
  }

  /** The outcome of every document, in order. */
  function Outcomes(disk: Disk, docs: seq<string>): (outs: seq<Outcome>)
    requires ValidIds(docs)
    ensures |outs| == |docs|
    ensures forall k :: 0 <= k < |docs| ==> outs[k] == Fetch(disk, docs[k])
  {
    seq(|docs|, k requires 0 <= k < |docs| => Fetch(disk, docs[k]))
  }

  predicate Failed(o: Outcome) {
    !o.Fetched?
  }

  /** What one document adds to `found`: its matching items, or 0 when it fails. */
  function Value(o: Outcome, topic: string): nat {
    match o
    case Fetched(items) => Count(items, topic)
    case _ => 0
  }

  /** The sum of the documents' values. */
  function Total(outs: seq<Outcome>, topic: string): nat {
    if outs == [] then 0 else Total(outs[..|outs| - 1], topic) + Value(outs[|outs| - 1], topic)
  }

  /** The number of documents whose fetch fails. */
  function Failures(outs: seq<Outcome>): (n: nat)
    ensures n <= |outs|
  {
    if outs == [] then 0 else Failures(outs[..|outs| - 1]) + (if Failed(outs[|outs| - 1]) then 1 else 0)
  }

  lemma {:induction false} TotalAppend(a: seq<Outcome>, b: seq<Outcome>, topic: string)
    ensures Total(a + b, topic) == Total(a, topic) + Total(b, topic)
    decreases |b|
  {
    if b == [] {
      assert a + b == a;
    } else {
      assert (a + b)[..|a + b| - 1] == a + b[..|b| - 1];
      TotalAppend(a, b[..|b| - 1], topic);
    }
  }

  lemma {:induction false} FailuresAppend(a: seq<Outcome>, b: seq<Outcome>)
    ensures Failures(a + b) == Failures(a) + Failures(b)
    decreases |b|
  {
    if b == [] {
      assert a + b == a;
    } else {
      assert (a + b)[..|a + b| - 1] == a + b[..|b| - 1];
      FailuresAppend(a, b[..|b| - 1]);
    }
  }

  /** A prefix finds no more, and fails no more often, than the whole. */
  lemma PrefixBounds(outs: seq<Outcome>, topic: string, n: nat)
    requires n <= |outs|
    ensures Total(outs[..n], topic) <= Total(outs, topic)
    ensures Failures(outs[..n]) <= Failures(outs)
  {
    assert outs[..n] + outs[n..] == outs;
    TotalAppend(outs[..n], outs[n..], topic);
    FailuresAppend(outs[..n], outs[n..]);
  }

  /** One document more. */
  lemma TotalStep(outs: seq<Outcome>, topic: string, i: nat)
    requires i < |outs|
    ensures Total(outs[..i + 1], topic) == Total(outs[..i], topic) + Value(outs[i], topic)
    ensures Failures(outs[..i + 1]) == Failures(outs[..i]) + (if Failed(outs[i]) then 1 else 0)
  {
    assert outs[..i + 1][..i] == outs[..i];
  }

  /** A failing document contributes nothing: a scan whose documents all fail finds 0. */
  lemma {:induction false} AllFailTotal(outs: seq<Outcome>, topic: string)
    requires Failures(outs) == |outs|
    ensures Total(outs, topic) == 0
  {
    if outs != [] {
      AllFailTotal(outs[..|outs| - 1], topic);
    }
  }

  // ---------------------------------------------------------------------------------------
  // The per-document work shared by the worker variants

  /** One document, as a worker goroutine handles it: each failing step returns early with
      nothing counted; otherwise the item loop counts the matches. `ok` is false on the early
      returns. */
  method ProcessDocument(disk: Disk, topic: string, doc: string) returns (found: nat, ok: bool)
    requires ValidId(doc)
    ensures found == Value(Fetch(disk, doc), topic)
    ensures ok <==> !Failed(Fetch(disk, doc))
    ensures !ok ==> found == 0
  {
    var file := FileName(doc);
    if file !in disk {
      return 0, false;
    }
    var contents := disk[file];
    if contents.Unreadable? {
      return 0, false;
    }
    if contents.Malformed? {
      return 0, false;
    }
    found := CountItems(contents.items, topic);
    ok := true;
  }

  // ---------------------------------------------------------------------------------------
  // Sums that do not depend on the order in which goroutines finish

  predicate InRange(s: set<int>, n: int) {
    forall i :: i in s ==> 0 <= i < n
  }

  /** The sum of the values at a set of positions, taken in no particular order. */
  ghost function SumOver(outs: seq<Outcome>, topic: string, s: set<int>): nat
    requires InRange(s, |outs|)
    decreases s
  {
    if s == {} then 0
    else
      NonEmpty(s);
      var i :| i in s;
      Value(outs[i], topic) + SumOver(outs, topic, s - {i})
  }

  /** Any position may be taken out first: the sum does not depend on the order. */
  lemma {:induction false} SumOverRemove(outs: seq<Outcome>, topic: string, s: set<int>, j: int)
    requires InRange(s, |outs|) && j in s
    ensures SumOver(outs, topic, s) == Value(outs[j], topic) + SumOver(outs, topic, s - {j})
    decreases s
  {
    var i :| i in s && SumOver(outs, topic, s) == Value(outs[i], topic) + SumOver(outs, topic, s - {i});
    if i != j {
      SumOverRemove(outs, topic, s - {i}, j);
      SumOverRemove(outs, topic, s - {j}, i);
      assert s - {i} - {j} == s - {j} - {i};
    }
  }

  lemma NonEmpty(s: set<int>)
    requires s != {}
    ensures exists i :: i in s
  {
    if forall i :: i !in s {
      assert false;
    }
  }

  /** The positions 0 .. n-1. */
  function Range(n: nat): (r: set<int>)
    ensures forall i :: i in r <==> 0 <= i < n
  {
    if n == 0 then {} else Range(n - 1) + {n - 1}
  }

  /** Summed in any order, the positions of all documents give the total. */
  lemma {:induction false} SumOverRange(outs: seq<Outcome>, topic: string, n: nat)
    requires n <= |outs|
    ensures InRange(Range(n), |outs|)
    ensures SumOver(outs, topic, Range(n)) == Total(outs[..n], topic)
  {
    if n > 0 {
      SumOverRange(outs, topic, n - 1);
      SumOverRemove(outs, topic, Range(n), n - 1);
      assert Range(n) - {n - 1} == Range(n - 1);
      TotalStep(outs, topic, n - 1);
    }
  }

  /** freqConcurrent: one goroutine per document; each adds its own count in a deferred block
      when it finishes, and the goroutines finish in any order. */
  method FreqConcurrent(disk: Disk, topic: string, docs: seq<string>) returns (found: nat)
    requires ValidIds(docs)
    ensures found == Total(Outcomes(disk, docs), topic)
  {
    ghost var outs := Outcomes(disk, docs);
    found := 0;
    var pending := Range(|docs|);
    while pending != {}
      invariant pending <= Range(|outs|)
      invariant found == SumOver(outs, topic, Range(|outs|) - pending)
      decreases |pending|
    {
      var i :| i in pending;
      var lFound, _ := ProcessDocument(disk, topic, docs[i]);
      ScanStep(outs, topic, pending, i);
      found := found + lFound;
      pending := pending - {i};
    }
    AllDone(outs, topic);
  }

  /** The failing documents among a set of positions. */
  function FailedIn(outs: seq<Outcome>, s: set<int>): set<int> {
    set i | i in s && 0 <= i < |outs| && Failed(outs[i])
  }

  lemma {:induction false} FailedInRange(outs: seq<Outcome>, n: nat)
    requires n <= |outs|
    ensures |FailedIn(outs, Range(n))| == Failures(outs[..n])
  {
    if n > 0 {
      FailedInRange(outs, n - 1);
      TotalStep(outs, "", n - 1);
      assert FailedIn(outs, Range(n)) ==
        FailedIn(outs, Range(n - 1)) + (if Failed(outs[n - 1]) then {n - 1} else {});
    }
  }

  /** One more goroutine, the one for document i, finishes. */
  lemma ScanStep(outs: seq<Outcome>, topic: string, pending: set<int>, i: int)
    requires pending <= Range(|outs|) && i in pending
    ensures pending - {i} <= Range(|outs|)
    ensures SumOver(outs, topic, Range(|outs|) - (pending - {i})) == Value(outs[i], topic) + SumOver(outs, topic, Range(|outs|) - pending)
  {
    var done := Range(|outs|) - pending;
    assert Range(|outs|) - (pending - {i}) == done + {i};
    SumOverRemove(outs, topic, done + {i}, i);
    assert done + {i} - {i} == done;
  }

  /** ... and adds one to the failures when its document fails. */
  lemma FailStep(outs: seq<Outcome>, pending: set<int>, i: int)
    requires pending <= Range(|outs|) && i in pending
    ensures |FailedIn(outs, Range(|outs|) - (pending - {i}))| == |FailedIn(outs, Range(|outs|) - pending)| + (if Failed(outs[i]) then 1 else 0)
  {
    var done := Range(|outs|) - pending;
    assert Range(|outs|) - (pending - {i}) == done + {i};
    assert FailedIn(outs, done + {i}) == FailedIn(outs, done) + (if Failed(outs[i]) then {i} else {});
  }

  /** Once no goroutine is pending, the sum is the total, and the failures are all counted. */
  lemma AllDone(outs: seq<Outcome>, topic: string)
    ensures SumOver(outs, topic, Range(|outs|) - {}) == Total(outs, topic)
    ensures |FailedIn(outs, Range(|outs|))| == Failures(outs)
    ensures |FailedIn(outs, Range(|outs|) - {})| == Failures(outs)
  {
    assert Range(|outs|) - {} == Range(|outs|);
    SumOverRange(outs, topic, |outs|);
    FailedInRange(outs, |outs|);
    assert outs[..|outs|] == outs;
  }

  /** The documents that failed so far are no more than all that fail. */
  lemma LeakedSlots(outs: seq<Outcome>, pending: set<int>)
    ensures |FailedIn(outs, Range(|outs|) - pending)| <= Failures(outs)
  {
    SubsetCard(FailedIn(outs, Range(|outs|) - pending), FailedIn(outs, Range(|outs|)));
    AllDone(outs, "");
  }

  /** freqConcurrentSem: every goroutine first sends on a channel with `cpus` slots and receives
      from it after its work. When `releaseOnError` is false, as written, a goroutine that
      returns early skips the receive and its slot is never given back; once no slot is left the
      remaining goroutines block in their send and wg.Wait never returns (None). */
  method SemaphoreScan(disk: Disk, topic: string, docs: seq<string>, cpus: nat, releaseOnError: bool)
    returns (r: Option<nat>)
    requires ValidIds(docs) && cpus >= 1
    ensures r.Some? ==> r.value == Total(Outcomes(disk, docs), topic)
    ensures (releaseOnError || Failures(Outcomes(disk, docs)) < cpus) ==> r.Some?
    ensures !releaseOnError && Failures(Outcomes(disk, docs)) > cpus ==> r.None?
  {
    ghost var outs := Outcomes(disk, docs);
    var found := 0;
    var free := cpus;
    var pending := Range(|docs|);
    while pending != {}
      invariant pending <= Range(|outs|)
      invariant found == SumOver(outs, topic, Range(|outs|) - pending)
      invariant releaseOnError ==> free == cpus
      invariant !releaseOnError ==> free + |FailedIn(outs, Range(|outs|) - pending)| == cpus
      decreases |pending|
    {
      if free == 0 {
        LeakedSlots(outs, pending);
        return None;
      }
      var i :| i in pending;
      free := free - 1;
      var lFound, ok := ProcessDocument(disk, topic, docs[i]);
      found := found + lFound;
      if ok || releaseOnError {
        free := free + 1;
      }
      ScanStep(outs, topic, pending, i);
      FailStep(outs, pending, i);
      pending := pending - {i};
    }
    AllDone(outs, topic);
    r := Some(found);
  }

  /** freqConcurrentSem as written. */
  method FreqConcurrentSem(disk: Disk, topic: string, docs: seq<string>, cpus: nat) returns (r: Option<nat>)
    requires ValidIds(docs) && cpus >= 1
    ensures r.Some? ==> r.value == Total(Outcomes(disk, docs), topic)
    ensures Failures(Outcomes(disk, docs)) < cpus ==> r.Some?
    ensures Failures(Outcomes(disk, docs)) > cpus ==> r.None?
  {
    r := SemaphoreScan(disk, topic, docs, cpus, false);
  }

  /** freqConcurrentSem with the slot given back on every path (a deferred receive). */
  method FreqConcurrentSemReleased(disk: Disk, topic: string, docs: seq<string>, cpus: nat) returns (found: nat)
    requires ValidIds(docs) && cpus >= 1
    ensures found == Total(Outcomes(disk, docs), topic)
  {
    var r := SemaphoreScan(disk, topic, docs, cpus, true);
    found := r.value;
  }

  // ---------------------------------------------------------------------------------------
  // Worker pools: freq, freqNumCPU, freqNumCPUTasks

  /** How many documents the workers take off the channel, in channel order, while `live`
      workers are left. When `failureEndsWorker` a failing document ends the worker that took
      it (the `return` inside `for doc := range ch`). */
  function Taken(outs: seq<Outcome>, live: nat, failureEndsWorker: bool): (t: nat)
    ensures t <= |outs|
  {
    if outs == [] || live == 0 then 0
    else 1 + Taken(outs[1..], if failureEndsWorker && Failed(outs[0]) then live - 1 else live, failureEndsWorker)
  }

  lemma TakenStep(outs: seq<Outcome>, taken: nat, live: nat, fe: bool)
    requires taken < |outs| && live > 0
    ensures Taken(outs[taken..], live, fe) ==
      1 + Taken(outs[taken + 1..], if fe && Failed(outs[taken]) then live - 1 else live, fe)
  {
    assert outs[taken..][1..] == outs[taken + 1..];
  }

  /** The workers ended by a run of documents. */
  function Deaths(outs: seq<Outcome>, failureEndsWorker: bool): nat {
    if failureEndsWorker then Failures(outs) else 0
  }

  /** Taken, characterised by the failures: every document taken found a live worker, and if
      some are left, every worker has ended. */
  lemma {:induction false} TakenStops(outs: seq<Outcome>, live: nat, fe: bool)
    ensures var t := Taken(outs, live, fe);
      (forall j :: 0 <= j < t ==> Deaths(outs[..j], fe) < live) &&
      (t < |outs| ==> Deaths(outs[..t], fe) >= live)
  {
    var t := Taken(outs, live, fe);
    if outs != [] && live > 0 {
      var d := if fe && Failed(outs[0]) then 1 else 0;
      var rest := outs[1..];
      TakenStops(rest, live - d, fe);
      forall j | 1 <= j <= t
        ensures Deaths(outs[..j], fe) == d + Deaths(rest[..j - 1], fe)
      {
        assert outs[..j] == [outs[0]] + rest[..j - 1];
        FailuresAppend([outs[0]], rest[..j - 1]);
        assert [outs[0]][..0] == [];
      }
      assert outs[..0] == [];
    }
  }

  /** With more workers than failures, every document is taken. */
  lemma TakenAll(outs: seq<Outcome>, live: nat, fe: bool)
    requires Deaths(outs, fe) < live
    ensures Taken(outs, live, fe) == |outs|
  {
    var t := Taken(outs, live, fe);
    TakenStops(outs, live, fe);
    if t < |outs| {
      PrefixBounds(outs, "", t);
    }
  }

  /** The deferred adds still to come: the counts of the workers that are still running. */
  function SumRunning(lfound: seq<nat>, running: seq<bool>): nat
    requires |lfound| == |running|
  {
    if lfound == [] then 0
    else (if running[0] then lfound[0] else 0) + SumRunning(lfound[1..], running[1..])
  }

  function CountRunning(running: seq<bool>): (n: nat)
    ensures n <= |running|
    ensures n > 0 ==> exists w :: 0 <= w < |running| && running[w]
  {
    if running == [] then 0
    else (if running[0] then 1 else 0) + CountRunning(running[1..])
  }

  lemma {:induction false} SumRunningAdd(lfound: seq<nat>, running: seq<bool>, w: nat, n: nat)
    requires |lfound| == |running| && w < |lfound| && running[w]
    ensures SumRunning(lfound[w := lfound[w] + n], running) == SumRunning(lfound, running) + n
  {
    if w > 0 {
      assert lfound[w := lfound[w] + n][1..] == lfound[1..][w - 1 := lfound[w] + n];
      SumRunningAdd(lfound[1..], running[1..], w - 1, n);
    }
  }

  lemma {:induction false} SumRunningStop(lfound: seq<nat>, running: seq<bool>, w: nat)
    requires |lfound| == |running| && w < |lfound| && running[w]
    ensures SumRunning(lfound, running[w := false]) + lfound[w] == SumRunning(lfound, running)
    ensures CountRunning(running[w := false]) + 1 == CountRunning(running)
  {
    if w > 0 {
      assert running[w := false][1..] == running[1..][w - 1 := false];
      SumRunningStop(lfound[1..], running[1..], w - 1);
    }
  }

  lemma {:induction false} AllRunning(lfound: seq<nat>, running: seq<bool>)
    requires |lfound| == |running|
    requires forall w :: 0 <= w < |lfound| ==> lfound[w] == 0 && running[w]
    ensures SumRunning(lfound, running) == 0 && CountRunning(running) == |running|
  {
    if lfound != [] {
      AllRunning(lfound[1..], running[1..]);
    }
  }

  /** Worker w receives a document: it processes it into its own `lfound` and, when the document
      fails and failures end workers, returns; its deferred add then hands `added` to `found`. */
  method WorkerReceives(disk: Disk, topic: string, doc: string, lfound: seq<nat>, running: seq<bool>,
                        w: nat, failureEndsWorker: bool)
    returns (lfound': seq<nat>, running': seq<bool>, added: nat, ended: bool)
    requires ValidId(doc) && |lfound| == |running| && w < |running| && running[w]
    ensures ended <==> failureEndsWorker && Failed(Fetch(disk, doc))
    ensures |lfound'| == |running'| == |running|
    ensures added + SumRunning(lfound', running') == SumRunning(lfound, running) + Value(Fetch(disk, doc), topic)
    ensures CountRunning(running') + (if failureEndsWorker && Failed(Fetch(disk, doc)) then 1 else 0) == CountRunning(running)
    ensures lfound' == lfound[w := lfound[w] + Value(Fetch(disk, doc), topic)]
    ensures running' == (if ended then running[w := false] else running)
    ensures added == (if ended then lfound'[w] else 0)
  {
    var n, ok := ProcessDocument(disk, topic, doc);
    SumRunningAdd(lfound, running, w, n);
    lfound' := lfound[w := lfound[w] + n];
    running' := running;
    added := 0;
    ended := !ok && failureEndsWorker;
    if ended {
      SumRunningStop(lfound', running, w);
      added := lfound'[w];
      running' := running[w := false];
    }
  }

  /** close(ch): the workers still ranging over the channel leave their loops and run their
      deferred adds. */
  method DeferredAdds(found: nat, lfound: seq<nat>, running: seq<bool>) returns (total: nat)
    requires |lfound| == |running|
    ensures total == found + SumRunning(lfound, running)
  {
    total := found;
    for w := 0 to |running|
      invariant total + SumRunning(lfound[w..], running[w..]) == found + SumRunning(lfound, running)
    {
      assert lfound[w..][1..] == lfound[w + 1..] && running[w..][1..] == running[w + 1..];
      if running[w] {
        total := total + lfound[w];
      }
    }
  }

  /** The state of the pool after `taken` documents: `live` workers still running, and the
      documents taken so far counted either in `found` or in a running worker's `lfound`. */
  ghost predicate PoolInv(outs: seq<Outcome>, topic: string, workers: nat, failureEndsWorker: bool, taken: nat,
                          live: nat, found: nat, lfound: seq<nat>, running: seq<bool>) {
    taken <= |outs| &&
    |lfound| == |running| == workers &&
    live == CountRunning(running) &&
    Taken(outs, workers, failureEndsWorker) == taken + Taken(outs[taken..], live, failureEndsWorker) &&
    found + SumRunning(lfound, running) == Total(outs[..taken], topic)
  }

  /** One document of the pool's loop, received by the running worker w. */
  method PoolStep(disk: Disk, topic: string, docs: seq<string>, workers: nat, failureEndsWorker: bool,
                  taken: nat, live: nat, found: nat, lfound: seq<nat>, running: seq<bool>, w: nat)
    returns (found': nat, live': nat, lfound': seq<nat>, running': seq<bool>)
    requires ValidIds(docs) && taken < |docs| && live > 0 && w < workers && w < |running| && running[w]
    requires PoolInv(Outcomes(disk, docs), topic, workers, failureEndsWorker, taken, live, found, lfound, running)
    ensures PoolInv(Outcomes(disk, docs), topic, workers, failureEndsWorker, taken + 1, live', found', lfound', running')
  {
    ghost var outs := Outcomes(disk, docs);
    var added, ended;
    lfound', running', added, ended := WorkerReceives(disk, topic, docs[taken], lfound, running, w, failureEndsWorker);
    found' := found + added;
    TakenStep(outs, taken, live, failureEndsWorker);
    live' := if ended then live - 1 else live;
    TotalStep(outs, topic, taken);
  }

  /** The pool: `workers` goroutines range over a channel with `workers` slots, into which the
      caller sends every document and then closes it. Each worker keeps its own `lfound` and adds
      it to `found` in a deferred block when it ends: when it returns on a failure (if
      `failureEndsWorker`) or when the channel is closed and drained. Which live worker receives a
      document is up to the scheduler. Once every worker has ended, the sender can still fill the
      channel's `workers` slots; `blocked` says that it then has documents left and waits forever. */
  method WorkerPool(disk: Disk, topic: string, docs: seq<string>, workers: nat, failureEndsWorker: bool)
    returns (found: nat, taken: nat, blocked: bool)
    requires ValidIds(docs)
    ensures taken == Taken(Outcomes(disk, docs), workers, failureEndsWorker)
    ensures found == Total(Outcomes(disk, docs)[..taken], topic)
    ensures blocked <==> |docs| - taken > workers
  {
    ghost var outs := Outcomes(disk, docs);
    var lfound: seq<nat> := seq(workers, _ => 0);
    var running := seq(workers, _ => true);
    var live := workers;
    AllRunning(lfound, running);
    found := 0;
    taken := 0;
    while taken < |docs| && live > 0
      invariant PoolInv(outs, topic, workers, failureEndsWorker, taken, live, found, lfound, running)
    {
      var w :| 0 <= w < workers && running[w];
      found, live, lfound, running := PoolStep(disk, topic, docs, workers, failureEndsWorker, taken, live, found, lfound, running, w);
      taken := taken + 1;
    }
    found := DeferredAdds(found, lfound, running);
    blocked := |docs| - taken > workers;
  }

  /** freq: as many workers as documents. A failing document ends its worker, but each ended
      worker took a document of its own, so the workers never run out and every document is
      taken; the scan never blocks. */
  method Freq(disk: Disk, topic: string, docs: seq<string>) returns (found: nat)
    requires ValidIds(docs)
    ensures found == Total(Outcomes(disk, docs), topic)
  {
    var taken, blocked;
    found, taken, blocked := WorkerPool(disk, topic, docs, |docs|, true);
    FreqTakesAll(Outcomes(disk, docs));
  }

  lemma FreqTakesAll(outs: seq<Outcome>)
    ensures Taken(outs, |outs|, true) == |outs|
    ensures outs[..Taken(outs, |outs|, true)] == outs
  {
    var t := Taken(outs, |outs|, true);
    TakenStops(outs, |outs|, true);
  }

  /** freqNumCPU: `cpus` workers, each ended by its first failing document. */
  method FreqNumCPU(disk: Disk, topic: string, docs: seq<string>, cpus: nat) returns (r: Option<nat>)
    requires ValidIds(docs) && cpus >= 1
    ensures r.None? <==> |docs| - Taken(Outcomes(disk, docs), cpus, true) > cpus
    ensures r.Some? ==> r.value == Total(Outcomes(disk, docs)[..Taken(Outcomes(disk, docs), cpus, true)], topic)
    ensures Failures(Outcomes(disk, docs)) < cpus ==> r == Some(Total(Outcomes(disk, docs), topic))
  {
    var found, taken, blocked := WorkerPool(disk, topic, docs, cpus, true);
    r := if blocked then None else Some(found);
    if Failures(Outcomes(disk, docs)) < cpus {
      TakenAll(Outcomes(disk, docs), cpus, true);
      assert Outcomes(disk, docs)[..|docs|] == Outcomes(disk, docs);
    }
  }

  /** freqNumCPUTasks: `cpus` workers; the early returns leave only the per-document function
      literal, so the workers never end before the channel is closed. */
  method FreqNumCPUTasks(disk: Disk, topic: string, docs: seq<string>, cpus: nat) returns (found: nat)
    requires ValidIds(docs) && cpus >= 1
    ensures found == Total(Outcomes(disk, docs), topic)
  {
    var taken, blocked;
    found, taken, blocked := WorkerPool(disk, topic, docs, cpus, false);
    TakenAll(Outcomes(disk, docs), cpus, false);
    assert Outcomes(disk, docs)[..|docs|] == Outcomes(disk, docs);
  }

  // ---------------------------------------------------------------------------------------
  // The pipeline: freqActor

  /** The position of the first failing document, or |outs|. */
  function FirstFailure(outs: seq<Outcome>): (n: nat)
    ensures n <= |outs|
    ensures forall k :: 0 <= k < n ==> !Failed(outs[k])
    ensures n < |outs| ==> Failed(outs[n])
  {
    if outs == [] || Failed(outs[0]) then 0
    else
      var n := FirstFailure(outs[1..]);
      assert forall k :: 1 <= k < n + 1 ==> outs[k] == outs[1..][k - 1];
      1 + n
  }

  /** The first stage: open the files in order and send them on; stop at the first that
      cannot be opened. */
  method OpenStage(disk: Disk, docs: seq<string>) returns (files: seq<FileState>)
    requires ValidIds(docs)
    ensures |files| <= |docs|
    ensures forall k :: 0 <= k < |files| ==> FileName(docs[k]) in disk && files[k] == disk[FileName(docs[k])]
    ensures |files| < |docs| ==> FileName(docs[|files|]) !in disk
  {
    files := [];
    while |files| < |docs|
      invariant |files| <= |docs|
      invariant forall k :: 0 <= k < |files| ==> FileName(docs[k]) in disk && files[k] == disk[FileName(docs[k])]
    {
      var file := FileName(docs[|files|]);
      if file !in disk {
        break;
      }
      files := files + [disk[file]];
    }
  }

  /** The second stage: read each file; stop at the first that cannot be read. */
  method ReadStage(files: seq<FileState>) returns (data: seq<FileState>)
    ensures |data| <= |files| && data == files[..|data|]
    ensures forall k :: 0 <= k < |data| ==> !data[k].Unreadable?
    ensures |data| < |files| ==> files[|data|].Unreadable?
  {
    data := [];
    while |data| < |files|
      invariant |data| <= |files| && data == files[..|data|]
      invariant forall k :: 0 <= k < |data| ==> !data[k].Unreadable?
    {
      var f := files[|data|];
      if f.Unreadable? {
        break;
      }
      data := data + [f];
    }
  }

  /** The third stage: decode each document; stop at the first that does not decode. */
  method DecodeStage(data: seq<FileState>) returns (rss: seq<seq<Item>>)
    ensures |rss| <= |data|
    ensures forall k :: 0 <= k < |rss| ==> data[k] == Rss(rss[k])
    ensures |rss| < |data| ==> !data[|rss|].Rss?
  {
    rss := [];
    while |rss| < |data|
      invariant |rss| <= |data|
      invariant forall k :: 0 <= k < |rss| ==> data[k] == Rss(rss[k])
    {
      var dt := data[|rss|];
      if !dt.Rss? {
        break;
      }
      rss := rss + [dt.items];
    }
  }

  /** The last stage: count the items of every document received. */
  method CountStage(rss: seq<seq<Item>>, topic: string) returns (found: nat)
    ensures found == Total(seq(|rss|, k requires 0 <= k < |rss| => Fetched(rss[k])), topic)
  {
    ghost var outs := seq(|rss|, k requires 0 <= k < |rss| => Fetched(rss[k]));
    found := 0;
    for l := 0 to |rss|
      invariant found == Total(outs[..l], topic)
    {
      var n := CountItems(rss[l], topic);
      TotalStep(outs, topic, l);
      found := found + n;
    }
    assert outs[..|rss|] == outs;
  }

  /** freqActor: four stages joined by channels, each `break`ing at its first failure and
      closing its output, which ends the next stage once it has drained it. */
  method FreqActor(disk: Disk, topic: string, docs: seq<string>) returns (found: nat)
    requires ValidIds(docs)
    ensures found == Total(Outcomes(disk, docs)[..FirstFailure(Outcomes(disk, docs))], topic)
  {
    ghost var outs := Outcomes(disk, docs);
    var files := OpenStage(disk, docs);
    var data := ReadStage(files);
    var rss := DecodeStage(data);
    found := CountStage(rss, topic);
    ghost var m := |rss|;
    assert forall k :: 0 <= k < m ==> outs[k] == Fetched(rss[k]);
    assert outs[..m] == seq(m, k requires 0 <= k < m => Fetched(rss[k]));
    assert m < |docs| ==> Failed(outs[m]);
    FirstFailureUnique(outs, m);
  }

  /** The first failure is the one position with no failure before it and a failure at it. */
  lemma FirstFailureUnique(outs: seq<Outcome>, m: nat)
    requires m <= |outs|
    requires forall k :: 0 <= k < m ==> !Failed(outs[k])
    requires m < |outs| ==> Failed(outs[m])
    ensures FirstFailure(outs) == m
  {
  }

  /** The pipeline never finds more than the worker variants, and the same exactly when it
      stops at the end, that is when nothing fails. */
  lemma ActorAgreesWithoutFailures(outs: seq<Outcome>, topic: string)
    ensures Total(outs[..FirstFailure(outs)], topic) <= Total(outs, topic)
    ensures Failures(outs) == 0 <==> FirstFailure(outs) == |outs|
  {
    var n := FirstFailure(outs);
    PrefixBounds(outs, topic, n);
    if n < |outs| {
      TotalStep(outs, topic, n);
      PrefixBounds(outs, topic, n + 1);
    } else {
      NoFailures(outs);
    }
  }

  lemma {:induction false} NoFailures(outs: seq<Outcome>)
    requires forall k :: 0 <= k < |outs| ==> !Failed(outs[k])
    ensures Failures(outs) == 0
  {
    if outs != [] {
      NoFailures(outs[..|outs| - 1]);
    }
  }

  // ---------------------------------------------------------------------------------------
  // The ids `main` generates

  function DigitChar(d: nat): char
    requires d < 10
  {
    ('0' as int + d) as char
  }

  /** The decimal digits of n, most significant first. */
  function Decimal(n: nat): (s: string)
    ensures |s| >= 1
    ensures |s| > 1 ==> s[0] != '0'
    ensures forall k :: 0 <= k < |s| ==> '0' <= s[k] <= '9'
  {
    if n < 10 then [DigitChar(n)] else Decimal(n / 10) + [DigitChar(n % 10)]
  }

  /** The number a string of decimal digits denotes. */
  function DecimalValue(s: string): nat
    requires forall k :: 0 <= k < |s| ==> '0' <= s[k] <= '9'
  {
    if s == [] then 0 else 10 * DecimalValue(s[..|s| - 1]) + (s[|s| - 1] as int - '0' as int)
  }

  lemma {:induction false} DecimalRoundTrip(n: nat)
    ensures DecimalValue(Decimal(n)) == n
  {
    if n >= 10 {
      var s := Decimal(n);
      assert s[..|s| - 1] == Decimal(n / 10);
      DecimalRoundTrip(n / 10);
    }
  }

  /** Leading zeros do not change the number a digit string denotes. */
  lemma {:induction false} LeadingZeros(z: string, d: string)
    requires forall k :: 0 <= k < |z| ==> z[k] == '0'
    requires forall k :: 0 <= k < |d| ==> '0' <= d[k] <= '9'
    ensures DecimalValue(z + d) == DecimalValue(d)
    decreases |z| + |d|
  {
    if d == [] {
      assert z + d == z;
      if z != [] {
        LeadingZeros(z[..|z| - 1], []);
        assert z[..|z| - 1] + [] == z[..|z| - 1];
      }
    } else {
      assert (z + d)[..|z + d| - 1] == z + d[..|d| - 1];
      LeadingZeros(z, d[..|d| - 1]);
    }
  }

  /** `%.4d`: the decimal digits of n, padded with leading zeros to four digits when shorter. */
  function ZeroPad4(n: nat): (s: string)
    ensures |s| == (if |Decimal(n)| >= 4 then |Decimal(n)| else 4)
    ensures forall k :: 0 <= k < |s| ==> '0' <= s[k] <= '9'
    ensures DecimalValue(s) == n
  {
    var d := Decimal(n);
    DecimalRoundTrip(n);
    if |d| >= 4 then d else LeadingZeros(seq(4 - |d|, _ => '0'), d); seq(4 - |d|, _ => '0') + d
  }

  /** fmt.Sprintf("newsfeed-%.4d.xml", i). */
  function GeneratedId(i: nat): (id: string)
    ensures ValidId(id)
  {
    "newsfeed-" + ZeroPad4(i) + ".xml"
  }

  /** The `docs` slice of `main`. */
  function GeneratedIds(count: nat): (docs: seq<string>)
    ensures |docs| == count && ValidIds(docs)
    ensures forall i :: 0 <= i < count ==> docs[i] == GeneratedId(i)
  {
    seq(count, i requires 0 <= i => GeneratedId(i))
  }

  /** Every generated id names the same file: the first eight characters are "newsfeed". */
  lemma GeneratedFileName(i: nat)
    ensures FileName(GeneratedId(i)) == "newsfeed.xml"
  {
    assert GeneratedId(i)[..8] == "newsfeed";
  }

  /** So the scan of the generated ids fetches one file over and over. */
  lemma GeneratedOutcomes(disk: Disk, count: nat)
    ensures Outcomes(disk, GeneratedIds(count)) == seq(count, _ => Fetch(disk, GeneratedId(0)))
  {
    forall i | 0 <= i < count
      ensures Fetch(disk, GeneratedId(i)) == Fetch(disk, GeneratedId(0))
    {
      GeneratedFileName(i);
      GeneratedFileName(0);
    }
  }

  /** A scan of one outcome repeated finds that document's value once per copy. */
  lemma {:induction false} RepeatedTotal(o: Outcome, topic: string, count: nat)
    ensures Total(seq(count, _ => o), topic) == count * Value(o, topic)
  {
    if count > 0 {
      assert seq(count, _ => o)[..count - 1] == seq(count - 1, _ => o);
      RepeatedTotal(o, topic, count - 1);
    }
  }

  /** With no documents every variant spawns no per-document work and returns 0, in the order
      freq, freqConcurrent, freqConcurrentSem, freqNumCPU, freqNumCPUTasks, freqActor. */
  method NoDocuments(disk: Disk, topic: string, cpus: nat) returns (results: seq<Option<nat>>)
    requires cpus >= 1
    ensures results == [Some(0), Some(0), Some(0), Some(0), Some(0), Some(0)]
  {
    assert Outcomes(disk, []) == [];
    var f := Freq(disk, topic, []);
    var fc := FreqConcurrent(disk, topic, []);
    var fs := FreqConcurrentSem(disk, topic, [], cpus);
    var fn := FreqNumCPU(disk, topic, [], cpus);
    var ft := FreqNumCPUTasks(disk, topic, [], cpus);
    var fa := FreqActor(disk, topic, []);
    results := [Some(f), Some(fc), fs, fn, Some(ft), Some(fa)];
  }

  // ---------------------------------------------------------------------------------------
  // Inputs on which freqConcurrentSem and freqNumCPU never return

  /** With no files on disk, every document fails to open. */
  lemma {:induction false} EmptyDiskFails(docs: seq<string>)
    requires ValidIds(docs)
    ensures Failures(Outcomes(map[], docs)) == |docs|
  {
    var outs := Outcomes(map[], docs);
    AllFailed(outs);
  }

  lemma {:induction false} AllFailed(outs: seq<Outcome>)
    requires forall k :: 0 <= k < |outs| ==> Failed(outs[k])
    ensures Failures(outs) == |outs|
  {
    if outs != [] {
      AllFailed(outs[..|outs| - 1]);
    }
  }

  /** On one CPU with no files on disk, the first document to fail keeps the only slot and the
      other goroutine waits for it forever. */
  method LeakedSlotBlocks() returns (r: Option<nat>)
    ensures r.None?
  {
    var docs := ["newsfeed-0000.xml", "newsfeed-0001.xml"];
    EmptyDiskFails(docs);
    r := FreqConcurrentSem(map[], "president", docs, 1);
  }

  /** On one CPU with no files on disk, the only worker ends at the first document; one more fits
      in the channel, and the sender waits forever to send the third. */
  method DeadWorkersBlock() returns (r: Option<nat>)
    ensures r.None?
  {
    var docs := ["newsfeed-0000.xml", "newsfeed-0001.xml", "newsfeed-0002.xml"];
    var outs := Outcomes(map[], docs);
    assert Failed(outs[0]);
    assert Taken(outs[1..], 0, true) == 0;
    r := FreqNumCPU(map[], "president", docs, 1);
  }

  /** With the same inputs, freqNumCPUTasks returns 0. */
  method TasksScanReturns() returns (found: nat)
    ensures found == 0
  {
    var docs := ["newsfeed-0000.xml", "newsfeed-0001.xml", "newsfeed-0002.xml"];
    EmptyDiskFails(docs);
    AllFailTotal(Outcomes(map[], docs), "president");
    found := FreqNumCPUTasks(map[], "president", docs, 1);
  }
}
