/** Reading a chain of configuration files: the worklist in `config.py` and its twin in
    `config_validation.py`.

    `Walk` is the reference: each file is followed by the files it chains to, the last named first, before
    whatever was waiting.  Both loops visit the files it gives, on any graph of chains, cyclic ones included. */
module ConfigChain {
  import opened Common
  import opened Options

  type Path = string
  type Attr = string

  const MAX_CONFIG_CHAIN := 20

  datatype Problem = Problem(line: nat, message: string)

  /** The files: which exist, what each chains to and sets, whether reading it fails, and what is wrong with
      it. */
  datatype Disk = Disk(isFile: Path -> bool, chained: Path -> seq<Path>, settings: Path -> map<Attr, string>,
                       fails: Path -> bool, found: Path -> seq<Problem>)

  function Reversed(paths: seq<Path>): (r: seq<Path>)
    ensures |r| == |paths| && forall p :: p in r <==> p in paths
    ensures forall i :: 0 <= i < |r| ==> r[i] == paths[|paths| - 1 - i]
  {
    if paths == [] then [] else Reversed(paths[1..]) + [paths[0]]
  }

  // ---------------------------------------------------------------------------------------------
  // The order of the files
  // ---------------------------------------------------------------------------------------------

  /** The files visited after visiting one path, with those visited before. */
  function Walk(disk: Disk, path: Path, seen: seq<Path>): (r: seq<Path>)
    ensures seen <= r
    decreases MAX_CONFIG_CHAIN - |seen|, 0
  {
    if |seen| >= MAX_CONFIG_CHAIN || path in seen || !disk.isFile(path) then seen
    else WalkAll(disk, Reversed(disk.chained(path)), seen + [path])
  }

  function WalkAll(disk: Disk, paths: seq<Path>, seen: seq<Path>): (r: seq<Path>)
    ensures seen <= r
    decreases MAX_CONFIG_CHAIN - |seen|, |paths| + 1
  {
    if paths == [] then seen else WalkAll(disk, paths[1..], Walk(disk, paths[0], seen))
  }

  lemma {:induction false} WalkAllConcat(disk: Disk, a: seq<Path>, b: seq<Path>, seen: seq<Path>)
    ensures WalkAll(disk, a + b, seen) == WalkAll(disk, b, WalkAll(disk, a, seen))
    decreases |a|
  {
    if a == [] {
      assert a + b == b;
    } else {
      assert (a + b)[1..] == a[1..] + b;
      WalkAllConcat(disk, a[1..], b, Walk(disk, a[0], seen));
    }
  }

  /** What one turn of the loop does. */
  lemma WalkStep(disk: Disk, queue: seq<Path>, seen: seq<Path>)
    requires queue != []
    ensures WalkAll(disk, queue, seen) ==
            if |seen| >= MAX_CONFIG_CHAIN || queue[0] in seen || !disk.isFile(queue[0])
            then WalkAll(disk, queue[1..], seen)
            else WalkAll(disk, Reversed(disk.chained(queue[0])) + queue[1..], seen + [queue[0]])
  {
    if !(|seen| >= MAX_CONFIG_CHAIN || queue[0] in seen || !disk.isFile(queue[0])) {
      WalkAllConcat(disk, Reversed(disk.chained(queue[0])), queue[1..], seen + [queue[0]]);
    }
  }

  lemma {:induction false} FullStaysFull(disk: Disk, queue: seq<Path>, seen: seq<Path>)
    requires |seen| >= MAX_CONFIG_CHAIN
    ensures WalkAll(disk, queue, seen) == seen
    decreases |queue|
  {
    if queue != [] {
      FullStaysFull(disk, queue[1..], seen);
    }
  }

  // ---------------------------------------------------------------------------------------------
  // What the order promises
  // ---------------------------------------------------------------------------------------------

  ghost predicate NoRepeats(paths: seq<Path>) {
    forall i, j :: 0 <= i < j < |paths| ==> paths[i] != paths[j]
  }

  ghost predicate AllFiles(disk: Disk, paths: seq<Path>) {
    forall p <- paths :: disk.isFile(p)
  }

  /** Reading ends after at most 20 files, all of them there, and none is read twice. */
  lemma {:induction false} AtMostTwentyFiles(disk: Disk, queue: seq<Path>, seen: seq<Path>)
    requires |seen| <= 20 && NoRepeats(seen) && AllFiles(disk, seen)
    ensures var r := WalkAll(disk, queue, seen);
      |r| <= 20 && NoRepeats(r) && AllFiles(disk, r)
    decreases MAX_CONFIG_CHAIN - |seen|, |queue|
  {
    if queue != [] {
      WalkStep(disk, queue, seen);
      if |seen| >= MAX_CONFIG_CHAIN || queue[0] in seen || !disk.isFile(queue[0]) {
        AtMostTwentyFiles(disk, queue[1..], seen);
      } else {
        AtMostTwentyFiles(disk, Reversed(disk.chained(queue[0])) + queue[1..], seen + [queue[0]]);
      }
    }
  }

  /** The path is visited or still waiting. */
  ghost predicate Handled(disk: Disk, path: Path, queue: seq<Path>, seen: seq<Path>) {
    disk.isFile(path) ==> path in queue || path in seen
  }

  /** Every file a visited file chains to is visited or waiting. */
  ghost predicate Closed(disk: Disk, queue: seq<Path>, seen: seq<Path>) {
    forall p <- seen :: forall q <- disk.chained(p) :: Handled(disk, q, queue, seen)
  }

  lemma {:induction false} NoFileIsLeft(disk: Disk, queue: seq<Path>, seen: seq<Path>)
    requires Closed(disk, queue, seen) && |WalkAll(disk, queue, seen)| < MAX_CONFIG_CHAIN
    ensures Closed(disk, [], WalkAll(disk, queue, seen))
    ensures forall p <- queue :: Handled(disk, p, [], WalkAll(disk, queue, seen))
    decreases MAX_CONFIG_CHAIN - |seen|, |queue|
  {
    if queue != [] {
      WalkStep(disk, queue, seen);
      var p, rest := queue[0], queue[1..];
      assert forall q <- queue :: q == p || q in rest;
      if p in seen || !disk.isFile(p) {
        assert Closed(disk, rest, seen);
        NoFileIsLeft(disk, rest, seen);
      } else {
        var next := Reversed(disk.chained(p)) + rest;
        assert Closed(disk, next, seen + [p]) by {
          assert forall q <- queue :: q in next || q in seen + [p];
          assert forall q <- disk.chained(p) :: q in next;
        }
        NoFileIsLeft(disk, next, seen + [p]);
        assert p in (seen + [p]) && forall q <- rest :: q in next;
      }
    }
  }

  /** Each step of the path is a file that the one before chains to. */
  ghost predicate IsChain(disk: Disk, start: seq<Path>, chain: seq<Path>) {
    && chain != [] && chain[0] in start && AllFiles(disk, chain)
    && forall i :: 0 < i < |chain| ==> chain[i] in disk.chained(chain[i - 1])
  }

  ghost predicate Reachable(disk: Disk, start: seq<Path>, path: Path) {
    exists chain :: IsChain(disk, start, chain) && chain[|chain| - 1] == path
  }

  lemma ReachableStep(disk: Disk, start: seq<Path>, p: Path, q: Path)
    requires Reachable(disk, start, p) && q in disk.chained(p) && disk.isFile(q)
    ensures Reachable(disk, start, q)
  {
    var chain :| IsChain(disk, start, chain) && chain[|chain| - 1] == p;
    assert IsChain(disk, start, chain + [q]);
  }

  ghost predicate AllReachable(disk: Disk, start: seq<Path>, paths: seq<Path>) {
    forall p <- paths :: disk.isFile(p) ==> Reachable(disk, start, p)
  }

  /** What the walk adds can be reached. */
  lemma {:induction false} OnlyReachable(disk: Disk, start: seq<Path>, queue: seq<Path>, seen: seq<Path>)
    requires AllReachable(disk, start, queue)
    ensures forall p <- WalkAll(disk, queue, seen)[|seen|..] :: Reachable(disk, start, p)
    decreases MAX_CONFIG_CHAIN - |seen|, |queue|
  {
    if queue != [] {
      WalkStep(disk, queue, seen);
      if |seen| >= MAX_CONFIG_CHAIN {
        FullStaysFull(disk, queue[1..], seen);
      } else if queue[0] in seen || !disk.isFile(queue[0]) {
        OnlyReachable(disk, start, queue[1..], seen);
      } else {
        var p, chained := queue[0], disk.chained(queue[0]);
        forall q <- Reversed(chained) | disk.isFile(q) ensures Reachable(disk, start, q) {
          ReachableStep(disk, start, p, q);
        }
        OnlyReachable(disk, start, Reversed(chained) + queue[1..], seen + [p]);
        var r := WalkAll(disk, queue, seen);
        assert r[|seen|] == (seen + [p])[|seen|];
        assert r[|seen|..] == [p] + r[|seen + [p]|..];
      }
    }
  }

  lemma {:induction false} ChainIsVisited(disk: Disk, start: seq<Path>, visited: seq<Path>, chain: seq<Path>)
    requires IsChain(disk, start, chain) && Closed(disk, [], visited)
    requires forall p <- start :: Handled(disk, p, [], visited)
    ensures chain[|chain| - 1] in visited
    decreases |chain|
  {
    if |chain| > 1 {
      var n := |chain| - 1;
      assert forall p <- chain[..n] :: p in chain;
      ChainIsVisited(disk, start, visited, chain[..n]);
      assert Handled(disk, chain[n], [], visited);
    }
  }

  /** If fewer than 20 files were read, they are exactly the files that can be reached. */
  lemma ReadsWhatIsReachable(disk: Disk, start: seq<Path>)
    ensures forall p <- WalkAll(disk, start, []) :: Reachable(disk, start, p)
    ensures |WalkAll(disk, start, [])| < 20 ==>
              forall p :: Reachable(disk, start, p) ==> p in WalkAll(disk, start, [])
  {
    var r := WalkAll(disk, start, []);
    forall p <- start | disk.isFile(p) ensures Reachable(disk, start, p) {
      assert IsChain(disk, start, [p]);
    }
    OnlyReachable(disk, start, start, []);
    assert r[0..] == r;
    AtMostTwentyFiles(disk, start, []);
    if |r| < MAX_CONFIG_CHAIN {
      NoFileIsLeft(disk, start, []);
      forall p | Reachable(disk, start, p) ensures p in r {
        var chain :| IsChain(disk, start, chain) && chain[|chain| - 1] == p;
        ChainIsVisited(disk, start, r, chain);
      }
    }
  }

  lemma {:induction false} WaitingAreVisited(disk: Disk, queue: seq<Path>, seen: seq<Path>)
    requires |WalkAll(disk, queue, seen)| < MAX_CONFIG_CHAIN
    ensures forall q <- queue :: disk.isFile(q) ==> q in WalkAll(disk, queue, seen)
    decreases |queue|
  {
    if queue != [] {
      var with := Walk(disk, queue[0], seen);
      WaitingAreVisited(disk, queue[1..], with);
      assert forall q <- queue :: q == queue[0] || q in queue[1..];
      if disk.isFile(queue[0]) && queue[0] !in seen {
        assert seen + [queue[0]] <= with;
        assert with[|seen|] == (seen + [queue[0]])[|seen|];
      }
    }
  }

  /** Right behind a file come the files it chains to, before whatever was waiting: first the one named last; in
      between only what can be reached from it; and, unless the limit is reached, all that it chains to. */
  lemma ChainedFilesComeNext(disk: Disk, p: Path, waiting: seq<Path>, seen: seq<Path>)
    requires |seen| < MAX_CONFIG_CHAIN && p !in seen && disk.isFile(p)
    ensures var chained, with := disk.chained(p), WalkAll(disk, [p], seen);
      && seen + [p] <= with <= WalkAll(disk, [p] + waiting, seen) == WalkAll(disk, waiting, with)
      && (chained != [] && |seen| + 1 < MAX_CONFIG_CHAIN ==>
            var last := chained[|chained| - 1];
            last !in seen && last != p && disk.isFile(last) ==> seen + [p, last] <= with)
      && (forall q <- with[|seen|..] :: Reachable(disk, [p], q))
      && (|with| < MAX_CONFIG_CHAIN ==> forall q <- chained :: disk.isFile(q) ==> q in with)
  {
    var chained, with := disk.chained(p), WalkAll(disk, [p], seen);
    WalkStep(disk, [p], seen);
    WalkAllConcat(disk, [p], waiting, seen);
    assert Reversed(chained) + [] == Reversed(chained);
    assert IsChain(disk, [p], [p]);
    OnlyReachable(disk, [p], [p], seen);
    if chained != [] && |seen| + 1 < MAX_CONFIG_CHAIN {
      WalkStep(disk, Reversed(chained), seen + [p]);
      assert seen + [p] + [chained[|chained| - 1]] == seen + [p, chained[|chained| - 1]];
    }
    if |with| < MAX_CONFIG_CHAIN {
      WaitingAreVisited(disk, Reversed(chained), seen + [p]);
    }
  }

  // ---------------------------------------------------------------------------------------------
  // The two loops
  // ---------------------------------------------------------------------------------------------

  /** The last of the files that sets the option. */
  function LastSetter(disk: Disk, files: seq<Path>, attr: Attr): Option<Path> {
    if files == [] then None
    else if attr in disk.settings(files[|files| - 1]) then Some(files[|files| - 1])
    else LastSetter(disk, files[..|files| - 1], attr)
  }

  ghost predicate NoneFails(disk: Disk, files: seq<Path>) {
    forall p <- files :: !disk.fails(p)
  }

  lemma LastSetterSnoc(disk: Disk, files: seq<Path>, p: Path, attr: Attr)
    ensures LastSetter(disk, files + [p], attr) ==
            if attr in disk.settings(p) then Some(p) else LastSetter(disk, files, attr)
  {
    assert (files + [p])[..|files|] == files;
  }

  class ConfigData {
    const disk: Disk
    const defaults: map<Attr, string>
    var filesRead: seq<Path>
    var values: map<Attr, string>
    var sources: map<Attr, Path>

    constructor (disk: Disk, defaults: map<Attr, string>)
      ensures this.disk == disk && this.defaults == defaults && filesRead == [] && SourcesTell()
    {
      this.disk, this.defaults := disk, defaults;
      filesRead, values, sources := [], defaults, map[];
    }

    /** Each option's source is the last file that sets it, and its value is the one that file gives; an option
        no file sets keeps its default. */
    ghost predicate SourcesTell()
      reads this
    {
      && (forall a :: a in sources <==> LastSetter(disk, filesRead, a).Some?)
      && (forall a <- sources :: sources[a] == LastSetter(disk, filesRead, a).value && a in disk.settings(sources[a])
                                 && a in values && values[a] == disk.settings(sources[a])[a])
      && (forall a :: a !in sources ==> (a in values <==> a in defaults))
      && (forall a <- defaults :: a !in sources ==> values[a] == defaults[a])
    }

    /** Read one file: its settings replace those before. */
    method Apply(configfile: Path)
      requires SourcesTell()
      modifies this
      ensures SourcesTell() && filesRead == old(filesRead) + [configfile]
    {
      forall a ensures LastSetter(disk, filesRead + [configfile], a) ==
                       if a in disk.settings(configfile) then Some(configfile) else LastSetter(disk, filesRead, a) {
        LastSetterSnoc(disk, filesRead, configfile, a);
      }
      filesRead := filesRead + [configfile];
      values := values + disk.settings(configfile);
      sources := sources + map a | a in disk.settings(configfile) :: configfile;
    }

    /** The loop of `ConfigData.__init__`.  It reads the files of `Walk`, or those up to the first that
        fails. */
    method ReadFiles(start: seq<Path>) returns (r: Result<(), Path>)
      requires filesRead == [] && SourcesTell()
      modifies this
      ensures var files := WalkAll(disk, start, []);
        match r
        case Ok(_) => filesRead == files && NoneFails(disk, files) && SourcesTell()
        case Err(p) =>
          && filesRead <= files && filesRead != [] && p == filesRead[|filesRead| - 1] && disk.fails(p)
          && NoneFails(disk, filesRead[..|filesRead| - 1])
    {
      var configQueue := start;
      while configQueue != []
        invariant SourcesTell() && NoneFails(disk, filesRead) && |filesRead| <= MAX_CONFIG_CHAIN
        invariant WalkAll(disk, configQueue, filesRead) == WalkAll(disk, start, [])
        decreases MAX_CONFIG_CHAIN - |filesRead|, |configQueue|
      {
        WalkStep(disk, configQueue, filesRead);
        var configfile := configQueue[0];
        ghost var waiting := configQueue;
        configQueue := configQueue[1..];
        if |filesRead| >= MAX_CONFIG_CHAIN {
          FullStaysFull(disk, waiting, filesRead);
          break;
        }
        if configfile !in filesRead && disk.isFile(configfile) {
          if disk.fails(configfile) {
            filesRead := filesRead + [configfile];
            return Err(configfile);
          }
          Apply(configfile);
          configQueue := PushedInFront(disk.chained(configfile), configQueue);
        }
      }
      r := Ok(());
    }
  }

  /** Push each path to the front in turn. */
  method PushedInFront(chained: seq<Path>, queue: seq<Path>) returns (q: seq<Path>)
    ensures q == Reversed(chained) + queue
  {
    q := queue;
    var i := 0;
    assert chained[..0] == [];
    while i < |chained|
      invariant 0 <= i <= |chained| && q == Reversed(chained[..i]) + queue
    {
      ReversedSnoc(chained[..i], chained[i]);
      assert chained[..i + 1] == chained[..i] + [chained[i]];
      q := [chained[i]] + q;
      i := i + 1;
    }
    assert chained[..i] == chained;
  }

  lemma {:induction false} ReversedSnoc(paths: seq<Path>, p: Path)
    ensures Reversed(paths + [p]) == [p] + Reversed(paths)
  {
    if paths == [] {
      assert paths + [p] == [p];
    } else {
      assert (paths + [p])[1..] == paths[1..] + [p];
      ReversedSnoc(paths[1..], p);
    }
  }

  // ---------------------------------------------------------------------------------------------
  // What is wrong with the files
  // ---------------------------------------------------------------------------------------------

  predicate InLineOrder(problems: seq<Problem>) {
    forall i, j :: 0 <= i < j < |problems| ==> problems[i].line <= problems[j].line
  }

  /** The problems of one line, in order. */
  function OnLine(problems: seq<Problem>, line: nat): seq<Problem> {
    if problems == [] then []
    else (if problems[0].line == line then [problems[0]] else []) + OnLine(problems[1..], line)
  }

  lemma FirstInLine(p: Problem, rest: seq<Problem>)
    requires InLineOrder(rest) && forall q <- rest :: p.line <= q.line
    ensures InLineOrder([p] + rest)
  {
  }

  function Inserted(p: Problem, problems: seq<Problem>): (r: seq<Problem>)
    requires InLineOrder(problems)
    ensures InLineOrder(r) && forall q :: q in r <==> q == p || q in problems
  {
    if problems == [] then [p]
    else if p.line <= problems[0].line then
      FirstInLine(p, problems);
      [p] + problems
    else
      RestInOrder(problems);
      var rest := Inserted(p, problems[1..]);
      FirstInLine(problems[0], rest);
      [problems[0]] + rest
  }

  lemma {:induction false} InsertedInPlace(p: Problem, problems: seq<Problem>, line: nat)
    requires InLineOrder(problems)
    ensures OnLine(Inserted(p, problems), line) == OnLine([p] + problems, line)
    decreases |problems|
  {
    hide InLineOrder, OnLine, Inserted;
    InsertedStep(p, problems);
    if problems != [] && p.line > problems[0].line {
      RestInOrder(problems);
      var first, rest := problems[0], problems[1..];
      InsertedInPlace(p, rest, line);
      OnLineFirst(first, Inserted(p, rest), line);
      OnLineFirst(p, problems, line);
      OnLineFirst(p, rest, line);
      assert problems == [first] + rest;
      OnLineFirst(first, rest, line);
    }
  }

  lemma InsertedStep(p: Problem, problems: seq<Problem>)
    requires InLineOrder(problems)
    ensures if problems != [] && p.line > problems[0].line
            then InLineOrder(problems[1..]) && Inserted(p, problems) == [problems[0]] + Inserted(p, problems[1..])
            else Inserted(p, problems) == [p] + problems
  {
    assert problems == [] ==> [p] + problems == [p];
  }

  lemma OnLineFirst(p: Problem, rest: seq<Problem>, line: nat)
    ensures OnLine([p] + rest, line) == (if p.line == line then [p] else []) + OnLine(rest, line)
  {
    assert ([p] + rest)[1..] == rest;
  }

  lemma RestInOrder(problems: seq<Problem>)
    requires InLineOrder(problems) && problems != []
    ensures InLineOrder(problems[1..]) && forall q <- problems[1..] :: problems[0].line <= q.line
  {
  }

  /** The problems by line. */
  function ByLine(found: seq<Problem>): (r: seq<Problem>)
    ensures InLineOrder(r) && forall q :: q in r <==> q in found
  {
    if found == [] then [] else Inserted(found[0], ByLine(found[1..]))
  }

  /** The problems of one line stay in the order they were found in. */
  lemma {:induction false} ByLineIsStable(found: seq<Problem>, line: nat)
    ensures OnLine(ByLine(found), line) == OnLine(found, line)
    decreases |found|
  {
    if found != [] {
      hide InLineOrder;
      var rest := ByLine(found[1..]);
      ByLineIsStable(found[1..], line);
      InsertedInPlace(found[0], rest, line);
      assert ([found[0]] + rest)[1..] == rest;
    }
  }

  function ProblemsOf(disk: Disk, files: seq<Path>): seq<seq<Problem>> {
    seq(|files|, i requires 0 <= i < |files| => ByLine(disk.found(files[i])))
  }

  lemma {:induction false} InSomePart<T>(parts: seq<seq<T>>, x: T)
    ensures x in Concat(parts) <==> exists i :: 0 <= i < |parts| && x in parts[i]
  {
    if parts != [] {
      InSomePart(parts[..|parts| - 1], x);
    }
  }

  /** A problem is reported just if it was found in one of the files. */
  lemma ReportedIff(disk: Disk, files: seq<Path>, q: Problem)
    ensures q in Concat(ProblemsOf(disk, files)) <==> exists p <- files :: q in disk.found(p)
  {
    InSomePart(ProblemsOf(disk, files), q);
    if p :| p in files && q in disk.found(p) {
      var i :| 0 <= i < |files| && files[i] == p;
      assert q in ProblemsOf(disk, files)[i];
    }
  }

  /** The loop of `validate_config`: the walk of the run, and what is wrong with each file on it, in the order of
      the files and of the lines of each. */
  method ValidateConfig(disk: Disk, start: seq<Path>) returns (checked: seq<Path>, problems: seq<Problem>)
    ensures checked == WalkAll(disk, start, []) && problems == Concat(ProblemsOf(disk, checked))
    ensures forall q :: q in problems <==> exists p <- checked :: q in disk.found(p)
  {
    var queue := start;
    checked, problems := [], [];
    while queue != [] && |checked| < MAX_CONFIG_CHAIN
      invariant |checked| <= MAX_CONFIG_CHAIN && problems == Concat(ProblemsOf(disk, checked))
      invariant WalkAll(disk, queue, checked) == WalkAll(disk, start, [])
      decreases MAX_CONFIG_CHAIN - |checked|, |queue|
    {
      WalkStep(disk, queue, checked);
      var path := queue[0];
      queue := queue[1..];
      if path in checked || !disk.isFile(path) {
        continue;
      }
      assert ProblemsOf(disk, checked + [path])[..|checked|] == ProblemsOf(disk, checked);
      checked := checked + [path];
      problems := problems + ByLine(disk.found(path));
      queue := PushedInFront(disk.chained(path), queue);
    }
    if |checked| >= MAX_CONFIG_CHAIN {
      FullStaysFull(disk, queue, checked);
    }
    forall q ensures q in problems <==> exists p <- checked :: q in disk.found(p) {
      ReportedIff(disk, checked, q);
    }
  }
}
