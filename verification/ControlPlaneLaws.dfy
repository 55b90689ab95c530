/** What every run of the control plane keeps, stream by stream. */
module ControlPlaneLaws {
  import opened Bytes
  import opened ControlPlane

  // ----- One stream on its own -----

  /** What the control plane keeps for one stream. */
  datatype Local = Local(bundles: map<TypeUrl, Bundle>, subs: map<TypeUrl, Subscription>, sent: seq<Response>)

  function LocalSub(l: Local, t: TypeUrl): (r: Option<Subscription>) {
    if t in l.subs then Some(l.subs[t]) else None
  }

  /** `sub` becomes the subscription of `t`, and the stream is brought up to date. */
  ghost function Push(l: Local, t: TypeUrl, sub: Subscription): (r: Local) {
    l.(subs := l.subs[t := sub], sent := l.sent + [Current(t, BundleIn(l.bundles, t), sub)])
  }

  ghost function LocalConfigure(l: Local, t: TypeUrl, res: Resources): (r: Local) {
    var l1 := l.(bundles := l.bundles[t := Bundle(BundleIn(l.bundles, t).version + 1, res)]);
    if t in l.subs then Push(l1, t, Bumped(l.subs[t])) else l1
  }

  ghost function LocalHandle(l: Local, req: Request): (r: Local) {
    match ParseUrl(req.typeUrl)
    case None => l
    case Some(t) =>
      if Accepts(LocalSub(l, t), req) then Push(l, t, NextSub(LocalSub(l, t), NamesOf(req))) else l
  }

  /** A server that serves a single stream; the stream of an action plays no part. */
  ghost function LocalStep(l: Local, a: Action): (r: Local) {
    match a
    case SetConfig(t, res) => LocalConfigure(l, t, res)
    case Receive(_, req) => LocalHandle(l, req)
    case Close(_) => l.(subs := map[])
  }

  function LocalInitial(): (l: Local) { Local(Initial().bundles, map[], []) }

  ghost function LocalRun(acts: seq<Action>): (l: Local) {
    if acts == [] then LocalInitial() else LocalStep(LocalRun(acts[..|acts| - 1]), acts[|acts| - 1])
  }

  function SubsOf(subscribers: map<TypeUrl, map<StreamId, Subscription>>, s: StreamId): (r: map<TypeUrl, Subscription>) {
    map t | t in subscribers && s in subscribers[t] :: subscribers[t][s]
  }

  /** What stream `s` sees of the whole control plane. */
  function ViewOf(st: State, s: StreamId): (l: Local) {
    Local(st.bundles, SubsOf(st.subscribers, s), SentTo(st, s))
  }

  predicate Concerns(a: Action, s: StreamId) { a.SetConfig? || a.stream == s }

  /** The configurations and the actions of stream `s` itself, in order. */
  function Project(acts: seq<Action>, s: StreamId): (r: seq<Action>) {
    if acts == [] then []
    else
      var last := acts[|acts| - 1];
      Project(acts[..|acts| - 1], s) + (if Concerns(last, s) then [last] else [])
  }

  lemma ViewOfSub(st: State, t: TypeUrl, s: StreamId)
    ensures LocalSub(ViewOf(st, s), t) == SubOf(st, t, s)
  {
  }

  /** Replacing the streams of one type, seen by one stream. */
  lemma SubsUpdate(m: map<TypeUrl, map<StreamId, Subscription>>, t: TypeUrl, streams: map<StreamId, Subscription>, s: StreamId)
    ensures SubsOf(m[t := streams], s) == if s in streams then SubsOf(m, s)[t := streams[s]] else SubsOf(m, s) - {t}
  {
    var r := SubsOf(m[t := streams], s);
    if s in streams {
      assert r == SubsOf(m, s)[t := streams[s]];
    } else {
      assert r == SubsOf(m, s) - {t};
    }
  }

  lemma SubscribeView(st: State, t: TypeUrl, s: StreamId, names: set<string>)
    ensures ViewOf(Subscribe(st, t, s, names), s) == Push(ViewOf(st, s), t, NextSub(SubOf(st, t, s), names))
  {
    hide Current, SubsOf;
    SubsUpdate(st.subscribers, t, StreamsOf(st, t)[s := NextSub(SubOf(st, t, s), names)], s);
  }

  lemma SubscribeOther(st: State, t: TypeUrl, s: StreamId, names: set<string>, r: StreamId)
    requires r != s
    ensures ViewOf(Subscribe(st, t, s, names), r) == ViewOf(st, r)
  {
    hide Current;
    assert SubsOf(Subscribe(st, t, s, names).subscribers, r) == SubsOf(st.subscribers, r);
  }

  lemma ConfigureFields(st: State, t: TypeUrl, res: Resources, s: StreamId)
    requires s in StreamsOf(st, t)
    ensures var sub, b := StreamsOf(st, t)[s], Bundle(BundleIn(st.bundles, t).version + 1, res);
            var next := Configure(st, t, res);
            && next.bundles == st.bundles[t := b]
            && next.subscribers == st.subscribers[t := BumpAll(StreamsOf(st, t))]
            && SentTo(next, s) == SentTo(st, s) + [Current(t, b, Bumped(sub))]
  {
    hide Current;
  }

  lemma LocalConfigureSubscriber(l: Local, t: TypeUrl, res: Resources)
    requires t in l.subs
    ensures var b, sub := Bundle(BundleIn(l.bundles, t).version + 1, res), Bumped(l.subs[t]);
            LocalConfigure(l, t, res) == Local(l.bundles[t := b], l.subs[t := sub], l.sent + [Current(t, b, sub)])
  {
    hide Current;
  }

  lemma SubscriberView(st: State, t: TypeUrl, s: StreamId)
    requires s in StreamsOf(st, t)
    ensures t in ViewOf(st, s).subs && ViewOf(st, s).subs[t] == StreamsOf(st, t)[s]
    ensures SubsOf(st.subscribers[t := BumpAll(StreamsOf(st, t))], s) == ViewOf(st, s).subs[t := Bumped(StreamsOf(st, t)[s])]
  {
    SubsUpdate(st.subscribers, t, BumpAll(StreamsOf(st, t)), s);
  }

  lemma ConfigureSubscriber(st: State, t: TypeUrl, res: Resources, s: StreamId)
    requires s in StreamsOf(st, t)
    ensures ViewOf(Configure(st, t, res), s) == LocalConfigure(ViewOf(st, s), t, res)
  {
    hide StreamsOf, Configure, Current, SubsOf, SentTo, BumpAll, BundleIn, Bumped, LocalConfigure;
    SubscriberView(st, t, s);
    ConfigureFields(st, t, res, s);
    LocalConfigureSubscriber(ViewOf(st, s), t, res);
  }

  lemma ConfigureOther(st: State, t: TypeUrl, res: Resources, s: StreamId)
    requires s !in StreamsOf(st, t)
    ensures ViewOf(Configure(st, t, res), s) == LocalConfigure(ViewOf(st, s), t, res)
  {
    var streams := StreamsOf(st, t);
    assert t !in SubsOf(st.subscribers, s);
    assert SubsOf(st.subscribers, s) - {t} == SubsOf(st.subscribers, s);
    hide Current, SubsOf;
    SubsUpdate(st.subscribers, t, BumpAll(streams), s);
  }

  lemma ConfigureView(st: State, t: TypeUrl, res: Resources, s: StreamId)
    ensures ViewOf(Configure(st, t, res), s) == LocalConfigure(ViewOf(st, s), t, res)
  {
    hide ViewOf, Configure, LocalConfigure;
    if s in StreamsOf(st, t) {
      ConfigureSubscriber(st, t, res, s);
    } else {
      ConfigureOther(st, t, res, s);
    }
  }

  lemma CloseView(st: State, c: StreamId, s: StreamId)
    ensures ViewOf(CloseStream(st, c), s) == if c == s then ViewOf(st, s).(subs := map[]) else ViewOf(st, s)
  {
    if c != s {
      assert ViewOf(CloseStream(st, c), s).subs == ViewOf(st, s).subs;
    }
  }

  /** A stream's view moves by its own actions and by configurations; nothing else touches it. */
  lemma StepView(st: State, a: Action, s: StreamId)
    ensures ViewOf(Step(st, a), s) == if Concerns(a, s) then LocalStep(ViewOf(st, s), a) else ViewOf(st, s)
  {
    match a
    case SetConfig(t, res) => ConfigureView(st, t, res, s);
    case Close(c) => CloseView(st, c, s);
    case Receive(r, req) =>
      hide ViewOf, Subscribe, Push, ParseUrl, NamesOf, NextSub;
      var url := ParseUrl(req.typeUrl);
      if url.Some? {
        ViewOfSub(st, url.value, r);
        if r == s {
          SubscribeView(st, url.value, r, NamesOf(req));
        } else {
          SubscribeOther(st, url.value, r, NamesOf(req), s);
        }
      }
  }

  /** The control plane refines, for each stream, a server that serves that stream alone. */
  lemma {:induction false} RunView(acts: seq<Action>, s: StreamId)
    ensures ViewOf(Run(acts), s) == LocalRun(Project(acts, s))
  {
    if acts == [] {
      assert ViewOf(Run(acts), s).subs == map[];
    } else {
      var n := |acts| - 1;
      RunView(acts[..n], s);
      StepView(Run(acts[..n]), acts[n], s);
      hide ViewOf, Step, LocalStep;
      if Concerns(acts[n], s) {
        var p := Project(acts[..n], s);
        assert (p + [acts[n]])[..|p|] == p;
      } else {
        assert Project(acts, s) == Project(acts[..n], s);
      }
    }
  }

  /**
    Non-interference: runs that agree on the configurations and on what stream
    `s` did itself send `s` the same responses and keep the same subscriptions
    for it, however the actions of other streams are interleaved.
   */
  lemma NonInterference(acts: seq<Action>, others: seq<Action>, s: StreamId)
    requires Project(acts, s) == Project(others, s)
    ensures SentTo(Run(acts), s) == SentTo(Run(others), s)
    ensures forall t :: SubOf(Run(acts), t, s) == SubOf(Run(others), t, s)
  {
    RunView(acts, s);
    RunView(others, s);
    forall t ensures SubOf(Run(acts), t, s) == SubOf(Run(others), t, s) {
      ViewOfSub(Run(acts), t, s);
      ViewOfSub(Run(others), t, s);
    }
  }

  // ----- No subscriber is ever behind -----

  /** The last response of type `t`. */
  function LastOf(sent: seq<Response>, t: TypeUrl): (r: Option<Response>) {
    if sent == [] then None
    else if sent[|sent| - 1].typeUrl == t then Some(sent[|sent| - 1])
    else LastOf(sent[..|sent| - 1], t)
  }

  ghost predicate UpToDate(l: Local) {
    forall t :: t in l.subs ==> LastOf(l.sent, t) == Some(Current(t, BundleIn(l.bundles, t), l.subs[t]))
  }

  lemma PushUpToDate(l: Local, t: TypeUrl, sub: Subscription)
    requires forall u :: u in l.subs && u != t ==> LastOf(l.sent, u) == Some(Current(u, BundleIn(l.bundles, u), l.subs[u]))
    ensures UpToDate(Push(l, t, sub))
  {
    hide Picked;
    var r := Current(t, BundleIn(l.bundles, t), sub);
    assert (l.sent + [r])[..|l.sent|] == l.sent;
  }

  lemma StepUpToDate(l: Local, a: Action)
    requires UpToDate(l)
    ensures UpToDate(LocalStep(l, a))
  {
    hide Picked, ParseUrl, NamesOf;
    match a
    case Close(_) =>
    case SetConfig(t, res) =>
      var l1 := l.(bundles := l.bundles[t := Bundle(BundleIn(l.bundles, t).version + 1, res)]);
      if t in l.subs {
        PushUpToDate(l1, t, Bumped(l.subs[t]));
      }
    case Receive(_, req) =>
      var url := ParseUrl(req.typeUrl);
      if url.Some? {
        PushUpToDate(l, url.value, NextSub(LocalSub(l, url.value), NamesOf(req)));
      }
  }

  lemma {:induction false} LocalUpToDate(acts: seq<Action>)
    ensures UpToDate(LocalRun(acts))
  {
    if acts != [] {
      LocalUpToDate(acts[..|acts| - 1]);
      StepUpToDate(LocalRun(acts[..|acts| - 1]), acts[|acts| - 1]);
    }
  }

  /**
    In every reachable state, the last response of a type sent to a subscriber
    of that type is the one that the current version, the current resources, the
    recorded names and the recorded nonce call for.
   */
  lemma NoSubscriberIsBehind(acts: seq<Action>, s: StreamId, t: TypeUrl)
    ensures var st := Run(acts);
            SubOf(st, t, s).Some? ==>
              LastOf(SentTo(st, s), t) == Some(Current(t, BundleIn(st.bundles, t), SubOf(st, t, s).value))
  {
    RunView(acts, s);
    LocalUpToDate(Project(acts, s));
    ViewOfSub(Run(acts), t, s);
  }
}
