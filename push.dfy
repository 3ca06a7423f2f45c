/**
  The push run: fetch the remote index once, walk the source tree, and for
  each markdown file read it, validate its frontmatter, classify it, print a
  status line and, unless this is a dry run, create or update the remote
  article. The first failure ends the run.
*/
module Push {
  import opened Wrappers
  import opened Errors
  import opened Utf8
  import opened RustPath
  import opened Frontmatter
  import opened Sync

  /**
    One item of the directory walk: an entry the walker could not produce
    (skipped silently), or a path, whether it is a directory, and what reading
    it as text gives (None when the read fails).
  */
  datatype WalkEntry = WalkFailed | Entry(path: string, isDir: bool, content: Option<string>)

  /** A write request to the remote service; the body is the file's full raw content. */
  datatype Request = Post(body: string) | Put(id: U32, body: string)

  /** What a request came to after the retry policy: an HTTP reply, or a transport failure. */
  datatype Reply = Delivered(success: bool) | TransportError

  /** Observable effects of a run, in order. */
  datatype Event = Line(text: string) | Issued(request: Request) | Replied(success: bool)

  datatype Outcome = Outcome(result: Result<(), Error>, trace: seq<Event>)

  /** The requests in a trace, in order. */
  function Requests(trace: seq<Event>): (r: seq<Request>)
    ensures forall q :: q in r <==> Issued(q) in trace
  {
    if trace == [] then []
    else (if trace[0].Issued? then [trace[0].request] else []) + Requests(trace[1..])
  }

  lemma {:induction false} RequestsAppend(a: seq<Event>, b: seq<Event>)
    ensures Requests(a + b) == Requests(a) + Requests(b)
  {
    if a == [] {
      assert a + b == b;
    } else {
      assert (a + b)[0] == a[0];
      assert (a + b)[1..] == a[1..] + b;
      RequestsAppend(a[1..], b);
    }
  }

  /**
    Sends one request. An HTTP reply, successful or not, is reported and the
    run goes on; a transport failure ends the run.
  */
  function Send(req: Request, net: Request -> Reply): (o: Outcome)
    ensures |o.trace| >= 1 && o.trace[0] == Issued(req)
    ensures Requests(o.trace) == [req]
    ensures o.result.Failure? <==> net(req).TransportError?
    ensures o.result.Failure? ==> o.result.error == TransportFailed
  {
    match net(req)
    case TransportError => Outcome(Failure(TransportFailed), [Issued(req)])
    case Delivered(ok) =>
      var trace := [Issued(req), Replied(ok)];
      assert trace[1..][1..] == [] && Requests(trace[1..][1..]) == [];
      assert Requests(trace[1..]) == [];
      assert Requests(trace) == [req] + Requests(trace[1..]);
      Outcome(Success(()), trace)
  }

  /** The request a decision calls for when writes are enabled. */
  function Dispatch(status: UploadStatus, content: string): (r: seq<Request>)
    ensures |r| <= 1 && (r == [] <==> status.Uploaded?)
    ensures forall q :: q in r ==> && q.body == content && (q.Put? <==> status.Syncing?)
                                   && (q.Put? ==> q.id == status.remote.id)
  {
    match status
    case Syncing(remote) => [Put(remote.id, content)]
    case Posting => [Post(content)]
    case Uploaded => []
  }

  /** Whether the walk's filter lets the entry through. */
  predicate Selected(e: WalkEntry) {
    e.Entry? && ValidPath(e.path, e.isDir)
  }

  /** Prints the status line for a decided document and, unless this is a dry run, sends what the decision calls for. */
  function Report(meta: Frontmatter, content: string, status: UploadStatus, dryrun: bool,
                  net: Request -> Reply): (o: Outcome)
    ensures |o.trace| >= 1 && o.trace[0] == Line(StatusLine(meta, status))
    ensures Requests(o.trace) == if dryrun then [] else Dispatch(status, content)
    ensures o.result.Failure? <==>
              !dryrun && Dispatch(status, content) != [] && net(Dispatch(status, content)[0]).TransportError?
    ensures o.result.Failure? ==> o.result.error == TransportFailed
  {
    var line := Line(StatusLine(meta, status));
    assert Requests([line]) == [] by { assert [line][1..] == []; }
    if dryrun then Outcome(Success(()), [line])
    else match status
      case Syncing(remote) =>
        RequestsAppend([line], Send(Put(remote.id, content), net).trace);
        After([line], Send(Put(remote.id, content), net))
      case Posting =>
        RequestsAppend([line], Send(Post(content), net).trace);
        After([line], Send(Post(content), net))
      case Uploaded => Outcome(Success(()), [line])
  }

  /** Validates the frontmatter of a file that was read, then classifies and reports it. */
  function ProcessContent(name: string, content: string, articles: seq<Article>, dryrun: bool,
                          parse: string -> ParseOutcome, hash: seq<byte> -> Digest, net: Request -> Reply): (o: Outcome)
    ensures Extract(name, parse(content)).Failure? ==>
              o == Outcome(Failure(Extract(name, parse(content)).error), [])
    ensures Extract(name, parse(content)).Success? ==>
              var meta := Extract(name, parse(content)).value.0;
              o.trace != [] && o.trace[0] == Line(StatusLine(meta, Classify(meta.title, content, articles, hash)))
  {
    match Extract(name, parse(content))
    case Failure(err) => Outcome(Failure(err), [])
    case Success(extracted) =>
      Report(extracted.0, content, Classify(extracted.0.title, content, articles, hash), dryrun, net)
  }

  /** What processing one selected entry does. */
  function Step(e: WalkEntry, articles: seq<Article>, dryrun: bool,
                parse: string -> ParseOutcome, hash: seq<byte> -> Digest, net: Request -> Reply): (o: Outcome)
    requires e.Entry?
    ensures e.content.None? ==> o == Outcome(Failure(ReadFailed), [])
    ensures o.trace == [] <==>
              e.content.None? || Extract(FileName(e.path).GetOr(""), parse(e.content.value)).Failure?
    ensures o.trace == [] ==> o.result.Failure?
  {
    match e.content
    case None => Outcome(Failure(ReadFailed), [])
    case Some(content) => ProcessContent(FileName(e.path).GetOr(""), content, articles, dryrun, parse, hash, net)
  }

  /** `Step` as a function of the entry alone, for the run-level definitions below. */
  function StepOf(articles: seq<Article>, dryrun: bool, parse: string -> ParseOutcome,
                  hash: seq<byte> -> Digest, net: Request -> Reply): WalkEntry -> Outcome
  {
    (e: WalkEntry) => if e.Entry? then Step(e, articles, dryrun, parse, hash, net) else Outcome(Success(()), [])
  }

  /** Prefixes the events already produced to the outcome of the rest of the run. */
  function After(done: seq<Event>, rest: Outcome): Outcome {
    Outcome(rest.result, done + rest.trace)
  }

  /** Processes the selected entries of the walk in order with `step`, stopping at the first failure. */
  function RunWith(walk: seq<WalkEntry>, keep: WalkEntry -> bool, step: WalkEntry -> Outcome): Outcome
  {
    if walk == [] then Outcome(Success(()), [])
    else if !keep(walk[0]) then RunWith(walk[1..], keep, step)
    else
      var first := step(walk[0]);
      if first.result.Failure? then first
      else After(first.trace, RunWith(walk[1..], keep, step))
  }

  /** A whole run: a failed index fetch ends it before any file is looked at. */
  function RunSpec(fetched: Result<seq<Article>, Error>, walk: seq<WalkEntry>, dryrun: bool,
                   parse: string -> ParseOutcome, hash: seq<byte> -> Digest, net: Request -> Reply): (o: Outcome)
    ensures fetched.Failure? ==> o == Outcome(Failure(fetched.error), [])
  {
    match fetched
    case Failure(e) => Outcome(Failure(e), [])
    case Success(articles) => RunWith(walk, Selected, StepOf(articles, dryrun, parse, hash, net))
  }

  /**
    Compares a document with the remote index using the run's hasher: the
    digest of the raw content against the digest of the first match's stored
    markdown, each taken from an emptied hasher.
  */
  method Decide(hasher: Hasher, title: string, content: string, articles: seq<Article>)
    returns (status: UploadStatus)
    requires hasher.pending == []
    modifies hasher
    ensures hasher.pending == []
    ensures status == Classify(title, content, articles, hasher.hash)
  {
    var found := FirstMatch(articles, title);
    if found.None? {
      status := Posting;
    } else {
      var remote := articles[found.value];
      hasher.Update(Encode(content));
      var local := hasher.FinalizeReset();
      hasher.Update(Encode(remote.bodyMarkdown));
      var stored := hasher.FinalizeReset();
      assert [] + Encode(content) == Encode(content);
      assert [] + Encode(remote.bodyMarkdown) == Encode(remote.bodyMarkdown);
      status := if local != stored then Syncing(remote) else Uploaded;
    }
  }

  /** One selected file: read, validate, decide, print, and send what the decision calls for. */
  method Process(entry: WalkEntry, articles: seq<Article>, dryrun: bool,
                 parse: string -> ParseOutcome, hasher: Hasher, net: Request -> Reply)
    returns (o: Outcome)
    requires entry.Entry? && hasher.pending == []
    modifies hasher
    ensures hasher.pending == []
    ensures o == Step(entry, articles, dryrun, parse, hasher.hash, net)
  {
    if entry.content.None? {
      return Outcome(Failure(ReadFailed), []);
    }
    var content := entry.content.value;
    var name := FileName(entry.path).GetOr("");
    var extracted := Extract(name, parse(content));
    if extracted.Failure? {
      return Outcome(Failure(extracted.error), []);
    }
    var meta := extracted.value.0;
    var status := Decide(hasher, meta.title, content, articles);
    var line := Line(StatusLine(meta, status));
    o := Outcome(Success(()), [line]);
    if !dryrun {
      var request: Option<Request> :=
        match status
        case Syncing(remote) => Some(Put(remote.id, content))
        case Posting => Some(Post(content))
        case Uploaded => None;
      if request.Some? {
        var sent := Send(request.value, net);
        o := After([line], sent);
      }
    }
    assert o == Report(meta, content, status, dryrun, net);
  }

  /**
    The run loop. One hasher serves every file; it is reset by each
    `FinalizeReset`, so it is empty whenever a file starts and no file's
    decision depends on the files before it.
  */
  method Run(fetched: Result<seq<Article>, Error>, walk: seq<WalkEntry>, dryrun: bool,
             parse: string -> ParseOutcome, hash: seq<byte> -> Digest, net: Request -> Reply)
    returns (result: Result<(), Error>, trace: seq<Event>)
    ensures Outcome(result, trace) == RunSpec(fetched, walk, dryrun, parse, hash, net)
  {
    if fetched.Failure? {
      return Failure(fetched.error), [];
    }
    var articles := fetched.value;
    ghost var step := StepOf(articles, dryrun, parse, hash, net);
    var hasher := new Hasher(hash);
    trace := [];
    assert After(trace, RunWith(walk[0..], Selected, step)) == RunWith(walk, Selected, step) by {
      assert walk[0..] == walk;
    }
    for i := 0 to |walk|
      invariant hasher.hash == hash && hasher.pending == []
      invariant RunWith(walk, Selected, step) == After(trace, RunWith(walk[i..], Selected, step))
    {
      ghost var rest := RunWith(walk[i + 1..], Selected, step);
      UnfoldAt(walk, i, Selected, step);
      var entry := walk[i];
      if Selected(entry) {
        var o := Process(entry, articles, dryrun, parse, hasher, net);
        assert o == step(entry);
        if o.result.Failure? {
          return o.result, trace + o.trace;
        }
        AfterAfter(trace, o.trace, rest);
        trace := trace + o.trace;
      }
    }
    assert walk[|walk|..] == [];
    result := Success(());
  }

  lemma AfterAfter(done: seq<Event>, more: seq<Event>, rest: Outcome)
    ensures After(done, After(more, rest)) == After(done + more, rest)
  {
    assert done + (more + rest.trace) == (done + more) + rest.trace;
  }

  /** One step of the walk, as the loop takes it. */
  lemma UnfoldAt(walk: seq<WalkEntry>, i: nat, keep: WalkEntry -> bool, step: WalkEntry -> Outcome)
    requires i < |walk|
    ensures var rest := RunWith(walk[i + 1..], keep, step);
            RunWith(walk[i..], keep, step)
              == if !keep(walk[i]) then rest
                 else if step(walk[i]).result.Failure? then step(walk[i])
                 else After(step(walk[i]).trace, rest)
  {
    assert walk[i..][0] == walk[i] && walk[i..][1..] == walk[i + 1..];
  }

  /**
    The first failure ends the run: if the entries before position `k` all
    go through and the selected entry at `k` fails, the run fails with that
    entry's error and nothing after it is read, printed or sent.
  */
  lemma {:induction false} FirstFailureEndsRun(walk: seq<WalkEntry>, k: nat, keep: WalkEntry -> bool,
                                                step: WalkEntry -> Outcome)
    requires k < |walk| && keep(walk[k]) && step(walk[k]).result.Failure?
    requires forall j :: 0 <= j < k && keep(walk[j]) ==> step(walk[j]).result.Success?
    ensures RunWith(walk, keep, step) == After(RunWith(walk[..k], keep, step).trace, step(walk[k]))
  {
    if k == 0 {
      assert walk[..0] == [];
    } else {
      var prefix := walk[..k];
      assert walk[1..][..k - 1] == prefix[1..];
      assert walk[1..][k - 1] == walk[k];
      FirstFailureEndsRun(walk[1..], k - 1, keep, step);
      UnfoldAt(walk, 0, keep, step);
      UnfoldAt(prefix, 0, keep, step);
      assert prefix[0] == walk[0] && walk[0..] == walk && prefix[0..] == prefix;
      var fail := step(walk[k]);
      var before := RunWith(prefix[1..], keep, step).trace;
      if keep(walk[0]) {
        var first := step(walk[0]).trace;
        assert first + (before + fail.trace) == (first + before) + fail.trace;
      }
    }
  }

  /** A run succeeds exactly when every selected entry goes through. */
  lemma {:induction false} RunSucceedsIffEveryFileDoes(walk: seq<WalkEntry>, keep: WalkEntry -> bool,
                                                        step: WalkEntry -> Outcome)
    ensures RunWith(walk, keep, step).result.Success? <==>
              forall j :: 0 <= j < |walk| && keep(walk[j]) ==> step(walk[j]).result.Success?
  {
    if walk != [] {
      RunSucceedsIffEveryFileDoes(walk[1..], keep, step);
      assert forall j :: 1 <= j < |walk| ==> walk[j] == walk[1..][j - 1];
    }
  }

  /**
    What a file is meant to send: None when it cannot be read or validated
    (the run stops there); otherwise one PUT carrying the matched article's id
    for a changed document, one POST for a new one, and nothing for an
    unchanged one or in a dry run, each carrying the file's full raw content.
  */
  function PlanFor(e: WalkEntry, articles: seq<Article>, dryrun: bool,
                   parse: string -> ParseOutcome, hash: seq<byte> -> Digest): Option<seq<Request>>
  {
    if !e.Entry? || e.content.None? then None
    else
      var content := e.content.value;
      match Extract(FileName(e.path).GetOr(""), parse(content))
      case Failure(_) => None
      case Success(extracted) =>
        Some(if dryrun then [] else Dispatch(Classify(extracted.0.title, content, articles, hash), content))
  }

  function PlanOf(articles: seq<Article>, dryrun: bool, parse: string -> ParseOutcome,
                  hash: seq<byte> -> Digest): WalkEntry -> Option<seq<Request>>
  {
    (e: WalkEntry) => PlanFor(e, articles, dryrun, parse, hash)
  }

  /** The requests of a whole walk, file by file in walk order, up to the first file that cannot be processed. */
  function PlanWith(walk: seq<WalkEntry>, keep: WalkEntry -> bool, plan: WalkEntry -> Option<seq<Request>>): seq<Request>
  {
    if walk == [] then []
    else if !keep(walk[0]) then PlanWith(walk[1..], keep, plan)
    else match plan(walk[0])
      case None => []
      case Some(reqs) => reqs + PlanWith(walk[1..], keep, plan)
  }

  /** A step's outcome agrees with its plan: no request and a failure when there is no plan, exactly the plan's requests otherwise. */
  predicate Follows(o: Outcome, plan: Option<seq<Request>>) {
    match plan
    case None => o.result.Failure? && Requests(o.trace) == []
    case Some(reqs) => Requests(o.trace) == reqs
  }

  /** Each file sends exactly what its decision calls for. */
  lemma StepFollowsPlan(e: WalkEntry, articles: seq<Article>, dryrun: bool,
                        parse: string -> ParseOutcome, hash: seq<byte> -> Digest, net: Request -> Reply)
    requires e.Entry?
    ensures Follows(Step(e, articles, dryrun, parse, hash, net), PlanFor(e, articles, dryrun, parse, hash))
  {
    if e.content.Some? {
      var content := e.content.value;
      var ex := Extract(FileName(e.path).GetOr(""), parse(content));
      if ex.Success? {
        var meta := ex.value.0;
        var status := Classify(meta.title, content, articles, hash);
        var line := Line(StatusLine(meta, status));
        assert Requests([line]) == [];
        if !dryrun && !status.Uploaded? {
          var req := if status.Syncing? then Put(status.remote.id, content) else Post(content);
          RequestsAppend([line], Send(req, net).trace);
        }
      }
    }
  }

  /** Whatever the steps do, if each follows its plan the run's requests are a prefix of the whole plan, and all of it on success. */
  lemma {:induction false} RunFollowsPlan(walk: seq<WalkEntry>, keep: WalkEntry -> bool, step: WalkEntry -> Outcome,
                                         plan: WalkEntry -> Option<seq<Request>>)
    requires forall j :: 0 <= j < |walk| && keep(walk[j]) ==> Follows(step(walk[j]), plan(walk[j]))
    ensures Requests(RunWith(walk, keep, step).trace) <= PlanWith(walk, keep, plan)
    ensures RunWith(walk, keep, step).result.Success? ==> Requests(RunWith(walk, keep, step).trace) == PlanWith(walk, keep, plan)
  {
    if walk != [] {
      assert forall j :: 1 <= j < |walk| ==> walk[j] == walk[1..][j - 1];
      RunFollowsPlan(walk[1..], keep, step, plan);
      if keep(walk[0]) {
        var first := step(walk[0]);
        if first.result.Success? {
          RequestsAppend(first.trace, RunWith(walk[1..], keep, step).trace);
        }
      }
    }
  }

  /**
    The requests a run sends follow the plan in walk order: all of it when
    the run succeeds, a prefix of it when a failure cut the run short.
  */
  lemma RequestsFollowPlan(articles: seq<Article>, walk: seq<WalkEntry>, dryrun: bool,
                           parse: string -> ParseOutcome, hash: seq<byte> -> Digest, net: Request -> Reply)
    ensures var o := RunSpec(Success(articles), walk, dryrun, parse, hash, net);
            var planned := PlanWith(walk, Selected, PlanOf(articles, dryrun, parse, hash));
            Requests(o.trace) <= planned && (o.result.Success? ==> Requests(o.trace) == planned)
  {
    var step := StepOf(articles, dryrun, parse, hash, net);
    var plan := PlanOf(articles, dryrun, parse, hash);
    forall j | 0 <= j < |walk| && Selected(walk[j]) ensures Follows(step(walk[j]), plan(walk[j])) {
      StepFollowsPlan(walk[j], articles, dryrun, parse, hash, net);
    }
    RunFollowsPlan(walk, Selected, step, plan);
  }

  /** A dry run plans no request. */
  lemma {:induction false} DryRunPlansNothing(walk: seq<WalkEntry>, articles: seq<Article>,
                                             parse: string -> ParseOutcome, hash: seq<byte> -> Digest)
    ensures PlanWith(walk, Selected, PlanOf(articles, true, parse, hash)) == []
  {
    if walk != [] {
      DryRunPlansNothing(walk[1..], articles, parse, hash);
    }
  }

  /** In a dry run no request is ever sent, whatever the files, the index and the network. */
  lemma DryRunSendsNothing(fetched: Result<seq<Article>, Error>, walk: seq<WalkEntry>,
                           parse: string -> ParseOutcome, hash: seq<byte> -> Digest, net: Request -> Reply)
    ensures Requests(RunSpec(fetched, walk, true, parse, hash, net).trace) == []
  {
    if fetched.Success? {
      RequestsFollowPlan(fetched.value, walk, true, parse, hash, net);
      DryRunPlansNothing(walk, fetched.value, parse, hash);
    }
  }

  /** Number of status lines in a trace. */
  function LineCount(trace: seq<Event>): nat {
    if trace == [] then 0 else (if trace[0].Line? then 1 else 0) + LineCount(trace[1..])
  }

  lemma {:induction false} LineCountAppend(a: seq<Event>, b: seq<Event>)
    ensures LineCount(a + b) == LineCount(a) + LineCount(b)
  {
    if a == [] {
      assert a + b == b;
    } else {
      assert (a + b)[0] == a[0];
      assert (a + b)[1..] == a[1..] + b;
      LineCountAppend(a[1..], b);
    }
  }

  /** Number of entries the filter lets through. */
  function KeptCount(walk: seq<WalkEntry>, keep: WalkEntry -> bool): nat {
    if walk == [] then 0 else (if keep(walk[0]) then 1 else 0) + KeptCount(walk[1..], keep)
  }

  /** A file that goes through prints exactly one status line, and prints it first. */
  lemma StepPrintsOneLine(e: WalkEntry, articles: seq<Article>, dryrun: bool,
                          parse: string -> ParseOutcome, hash: seq<byte> -> Digest, net: Request -> Reply)
    requires e.Entry?
    ensures var o := Step(e, articles, dryrun, parse, hash, net);
            o.result.Success? ==> |o.trace| > 0 && o.trace[0].Line? && LineCount(o.trace) == 1
  {
    var o := Step(e, articles, dryrun, parse, hash, net);
    if o.result.Success? {
      var content := e.content.value;
      var meta := Extract(FileName(e.path).GetOr(""), parse(content)).value.0;
      var status := Classify(meta.title, content, articles, hash);
      assert o == Report(meta, content, status, dryrun, net);
      ReportPrintsOneLine(meta, content, status, dryrun, net);
    }
  }

  lemma SendPrintsNothing(req: Request, net: Request -> Reply)
    ensures LineCount(Send(req, net).trace) == 0
  {
    var t := Send(req, net).trace;
    if net(req).TransportError? {
      assert t == [Issued(req)] && t[1..] == [];
    } else {
      assert t == [Issued(req), Replied(net(req).success)];
      assert t[1..] == [Replied(net(req).success)] && t[1..][1..] == [];
      assert LineCount(t[1..]) == 0;
    }
  }

  /** A report holds its status line and, after it, at most a request and its reply. */
  lemma ReportPrintsOneLine(meta: Frontmatter, content: string, status: UploadStatus, dryrun: bool,
                            net: Request -> Reply)
    ensures LineCount(Report(meta, content, status, dryrun, net).trace) == 1
  {
    var line := Line(StatusLine(meta, status));
    assert [line][1..] == [];
    if !dryrun && !status.Uploaded? {
      var req := if status.Syncing? then Put(status.remote.id, content) else Post(content);
      var sent := Send(req, net);
      SendPrintsNothing(req, net);
      LineCountAppend([line], sent.trace);
      assert Report(meta, content, status, dryrun, net).trace == [line] + sent.trace;
    }
  }

  /** A run that succeeds prints one status line per selected file. */
  lemma {:induction false} OneLinePerFile(walk: seq<WalkEntry>, keep: WalkEntry -> bool, step: WalkEntry -> Outcome)
    requires forall j :: 0 <= j < |walk| && keep(walk[j]) && step(walk[j]).result.Success? ==>
               LineCount(step(walk[j]).trace) == 1
    ensures RunWith(walk, keep, step).result.Success? ==> LineCount(RunWith(walk, keep, step).trace) == KeptCount(walk, keep)
  {
    if walk != [] {
      assert forall j :: 1 <= j < |walk| ==> walk[j] == walk[1..][j - 1];
      OneLinePerFile(walk[1..], keep, step);
      if keep(walk[0]) && step(walk[0]).result.Success? {
        LineCountAppend(step(walk[0]).trace, RunWith(walk[1..], keep, step).trace);
      }
    }
  }

  /** A successful run prints exactly one status line for each markdown file the walk found. */
  lemma RunPrintsOneLinePerFile(fetched: Result<seq<Article>, Error>, walk: seq<WalkEntry>, dryrun: bool,
                                parse: string -> ParseOutcome, hash: seq<byte> -> Digest, net: Request -> Reply)
    ensures var o := RunSpec(fetched, walk, dryrun, parse, hash, net);
            o.result.Success? ==> fetched.Success? && LineCount(o.trace) == KeptCount(walk, Selected)
  {
    if fetched.Success? {
      var step := StepOf(fetched.value, dryrun, parse, hash, net);
      forall j | 0 <= j < |walk| && Selected(walk[j]) && step(walk[j]).result.Success?
        ensures LineCount(step(walk[j]).trace) == 1
      {
        StepPrintsOneLine(walk[j], fetched.value, dryrun, parse, hash, net);
      }
      OneLinePerFile(walk, Selected, step);
    }
  }

  /** The document the scenarios below use: `foo.md` holding a title and the body "Hello". */
  const FooContent: string := "---\ntitle: Foo\n---\nHello"
  const FooPath: string := "./foo.md"

  function FooFront(): Yaml {
    Hash(map[String("title") := String("Foo")])
  }

  function FooEntry(): WalkEntry {
    Entry(FooPath, false, Some(FooContent))
  }

  lemma FooIsSelected()
    ensures Selected(FooEntry())
  {
    ValidPathOfParts(".", "foo", "md", false);
    assert "." + "/" + "foo" + "." + "md" == FooPath;
  }

  /** `foo.md` validates to the record titled "Foo", so its step is the report of its decision. */
  lemma FooStep(articles: seq<Article>, dryrun: bool, parse: string -> ParseOutcome,
                hash: seq<byte> -> Digest, net: Request -> Reply)
    requires parse(FooContent) == Parsed(Some(FooFront()), "Hello")
    ensures Step(FooEntry(), articles, dryrun, parse, hash, net)
              == Report(WithTitle("Foo"), FooContent, Classify("Foo", FooContent, articles, hash), dryrun, net)
  {
    FooExtracts(FileName(FooPath).GetOr(""));
  }

  /** The frontmatter of `foo.md` validates to the record titled "Foo", with body "Hello". */
  lemma FooExtracts(name: string)
    ensures Extract(name, Parsed(Some(FooFront()), "Hello")) == Success((WithTitle("Foo"), "Hello"))
  {
    assert FromFile(name, FooFront()) == Success(WithTitle("Foo"));
  }

  /** A walk of one selected file is that file's step. */
  lemma RunOne(e: WalkEntry, keep: WalkEntry -> bool, step: WalkEntry -> Outcome)
    requires keep(e)
    ensures RunWith([e], keep, step) == step(e)
  {
    assert [e][1..] == [];
    assert step(e).trace + [] == step(e).trace;
    if step(e).result.Success? {
      assert step(e).result.value == ();
    }
  }

  /** No remote article, dry run: the new file is reported as posting and nothing is sent. */
  lemma NewFileDryRun(parse: string -> ParseOutcome, hash: seq<byte> -> Digest, net: Request -> Reply)
    requires parse(FooContent) == Parsed(Some(FooFront()), "Hello")
    ensures RunSpec(Success([]), [FooEntry()], true, parse, hash, net)
              == Outcome(Success(()), [Line(StatusLine(WithTitle("Foo"), Posting))])
  {
    FooIsSelected();
    RunOne(FooEntry(), Selected, StepOf([], true, parse, hash, net));
    FooStep([], true, parse, hash, net);
  }

  /** Remote article 7 has the title but other content: a write run sends one PUT to article 7. */
  lemma ChangedFileIsUpdated(parse: string -> ParseOutcome, hash: seq<byte> -> Digest, net: Request -> Reply)
    requires parse(FooContent) == Parsed(Some(FooFront()), "Hello")
    requires Injective(hash)
    requires net(Put(7, FooContent)) == Delivered(true)
    ensures var remote := Article(7, "Foo", "Hello");
            RunSpec(Success([remote]), [FooEntry()], false, parse, hash, net)
              == Outcome(Success(()), [Line(StatusLine(WithTitle("Foo"), Syncing(remote))),
                                       Issued(Put(7, FooContent)), Replied(true)])
  {
    var remote := Article(7, "Foo", "Hello");
    FooIsSelected();
    RunOne(FooEntry(), Selected, StepOf([remote], false, parse, hash, net));
    FooStep([remote], false, parse, hash, net);
    FooDiffersFromRemote(remote, hash);
    WriteRunSyncs(WithTitle("Foo"), FooContent, remote, net);
  }

  /** A write run reports a changed document and then sends one PUT to its remote article. */
  lemma WriteRunSyncs(meta: Frontmatter, content: string, remote: Article, net: Request -> Reply)
    requires net(Put(remote.id, content)).Delivered?
    ensures Report(meta, content, Syncing(remote), false, net)
              == Outcome(Success(()), [Line(StatusLine(meta, Syncing(remote))), Issued(Put(remote.id, content)),
                                       Replied(net(Put(remote.id, content)).success)])
  {
    var req := Put(remote.id, content);
    var line := Line(StatusLine(meta, Syncing(remote)));
    var sent := Send(req, net);
    assert sent == Outcome(Success(()), [Issued(req), Replied(net(req).success)]);
    assert Report(meta, content, Syncing(remote), false, net) == After([line], sent);
  }

  /** Under a collision-free digest, a remote body other than the local bytes means syncing. */
  lemma FooDiffersFromRemote(remote: Article, hash: seq<byte> -> Digest)
    requires Injective(hash)
    requires remote == Article(7, "Foo", "Hello")
    ensures Classify("Foo", FooContent, [remote], hash) == Syncing(remote)
  {
    assert FooContent != "Hello";
    ClassifyMeaning("Foo", FooContent, [remote], hash);
    assert IsFirstMatch([remote], "Foo", 0);
  }

  /** Remote article 7 stores exactly the local bytes: nothing is sent, dry run or not. */
  lemma UnchangedFileIsLeftAlone(dryrun: bool, parse: string -> ParseOutcome, hash: seq<byte> -> Digest,
                                 net: Request -> Reply)
    requires parse(FooContent) == Parsed(Some(FooFront()), "Hello")
    ensures var remote := Article(7, "Foo", FooContent);
            RunSpec(Success([remote]), [FooEntry()], dryrun, parse, hash, net)
              == Outcome(Success(()), [Line(StatusLine(WithTitle("Foo"), Uploaded))])
  {
    var remote := Article(7, "Foo", FooContent);
    FooIsSelected();
    RunOne(FooEntry(), Selected, StepOf([remote], dryrun, parse, hash, net));
    FooStep([remote], dryrun, parse, hash, net);
    assert Classify("Foo", FooContent, [remote], hash) == Uploaded;
  }
}
