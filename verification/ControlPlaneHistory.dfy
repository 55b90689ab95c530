/** Versions and nonces over whole runs of the control plane. */
module ControlPlaneHistory {
  import opened Bytes
  import opened ControlPlane
  import opened ControlPlaneLaws
  import Decimal

  // ----- Where a response comes from -----

  /** The resource sets configured for `t`, in order. */
  function Configs(acts: seq<Action>, t: TypeUrl): (r: seq<Resources>) {
    if acts == [] then []
    else
      var last := acts[|acts| - 1];
      Configs(acts[..|acts| - 1], t) + (if last.SetConfig? && last.typeUrl == t then [last.resources] else [])
  }

  /** The resource set that carries version `v`; version 0 is the empty set before any configuration. */
  function ConfigAt(acts: seq<Action>, t: TypeUrl, v: nat): (r: Resources)
    requires v <= |Configs(acts, t)|
  {
    if v == 0 then map[] else Configs(acts, t)[v - 1]
  }

  lemma StepBundle(st: State, a: Action, t: TypeUrl)
    ensures BundleIn(Step(st, a).bundles, t) ==
            if a.SetConfig? && a.typeUrl == t then Bundle(BundleIn(st.bundles, t).version + 1, a.resources)
            else BundleIn(st.bundles, t)
  {
    hide Current, ParseUrl, NamesOf;
  }

  /** The version counts the configurations, and the resources are those of the last one. */
  lemma {:induction false} BundleMeaning(acts: seq<Action>, t: TypeUrl)
    ensures var n := |Configs(acts, t)|;
            BundleIn(Run(acts).bundles, t) == Bundle(n, ConfigAt(acts, t, n))
  {
    if acts != [] {
      var n := |acts| - 1;
      BundleMeaning(acts[..n], t);
      StepBundle(Run(acts[..n]), acts[n], t);
      hide Step;
    }
  }

  lemma {:induction false} ConfigsPrefix(acts: seq<Action>, k: nat, t: TypeUrl)
    requires k <= |acts|
    ensures Configs(acts[..k], t) <= Configs(acts, t)
  {
    if k < |acts| {
      ConfigsPrefix(acts[..|acts| - 1], k, t);
      assert acts[..|acts| - 1][..k] == acts[..k];
    } else {
      assert acts[..k] == acts;
    }
  }

  /** A step sends a stream nothing, or the one response that brings it up to date. */
  ghost predicate SendsCurrent(st: State, next: State, s: StreamId) {
    || SentTo(next, s) == SentTo(st, s)
    || exists t :: SubOf(next, t, s).Some? &&
                   SentTo(next, s) == SentTo(st, s) + [Current(t, BundleIn(next.bundles, t), SubOf(next, t, s).value)]
  }

  lemma PushSends(l: Local, t: TypeUrl, sub: Subscription)
    ensures var n := Push(l, t, sub);
            LocalSub(n, t) == Some(sub) && n.sent == l.sent + [Current(t, BundleIn(n.bundles, t), sub)]
  {
  }

  lemma LocalStepSends(l: Local, a: Action)
    ensures var n := LocalStep(l, a);
            || n.sent == l.sent
            || exists t :: LocalSub(n, t).Some? && n.sent == l.sent + [Current(t, BundleIn(n.bundles, t), LocalSub(n, t).value)]
  {
    hide Current, ParseUrl, NamesOf, Push;
    match a
    case Close(_) =>
    case SetConfig(t, res) =>
      if t in l.subs {
        var l1 := l.(bundles := l.bundles[t := Bundle(BundleIn(l.bundles, t).version + 1, res)]);
        PushSends(l1, t, Bumped(l.subs[t]));
      }
    case Receive(_, req) =>
      var url := ParseUrl(req.typeUrl);
      if url.Some? {
        PushSends(l, url.value, NextSub(LocalSub(l, url.value), NamesOf(req)));
      }
  }

  lemma StepSends(st: State, a: Action, s: StreamId)
    ensures SendsCurrent(st, Step(st, a), s)
  {
    var l, next := ViewOf(st, s), Step(st, a);
    StepView(st, a, s);
    LocalStepSends(l, a);
    hide Step, LocalStep, Current;
    if SentTo(next, s) != SentTo(st, s) {
      var n := LocalStep(l, a);
      var t :| LocalSub(n, t).Some? && n.sent == l.sent + [Current(t, BundleIn(n.bundles, t), LocalSub(n, t).value)];
      ViewOfSub(next, t, s);
    }
  }

  /** The `i`-th response to `s` was sent by action `k`, for the state that this action left. */
  ghost predicate SentBy(acts: seq<Action>, s: StreamId, i: nat, k: nat, r: Response) {
    && k < |acts|
    && var st := Run(acts[..k + 1]);
       && |SentTo(st, s)| == i + 1
       && SubOf(st, r.typeUrl, s).Some?
       && r == Current(r.typeUrl, BundleIn(st.bundles, r.typeUrl), SubOf(st, r.typeUrl, s).value)
  }

  lemma SentByLonger(acts: seq<Action>, s: StreamId, i: nat, k: nat, r: Response)
    requires acts != [] && SentBy(acts[..|acts| - 1], s, i, k, r)
    ensures SentBy(acts, s, i, k, r)
  {
    hide Run, Current, SubOf, SentTo, BundleIn;
    assert acts[..|acts| - 1][..k + 1] == acts[..k + 1];
  }

  lemma SentByLast(acts: seq<Action>, s: StreamId, i: nat)
    requires acts != [] && i < |SentTo(Run(acts), s)| && i >= |SentTo(Run(acts[..|acts| - 1]), s)|
    ensures SentBy(acts, s, i, |acts| - 1, SentTo(Run(acts), s)[i])
  {
    var n := |acts| - 1;
    StepSends(Run(acts[..n]), acts[n], s);
    assert Run(acts) == Step(Run(acts[..n]), acts[n]);
    assert acts[..n + 1] == acts;
    hide Step, Run, Current, SubOf, SentTo, BundleIn;
  }

  /** What has been sent stays sent. */
  lemma SentStays(acts: seq<Action>, s: StreamId, i: nat)
    requires acts != [] && i < |SentTo(Run(acts[..|acts| - 1]), s)|
    ensures i < |SentTo(Run(acts), s)| && SentTo(Run(acts), s)[i] == SentTo(Run(acts[..|acts| - 1]), s)[i]
  {
    var n := |acts| - 1;
    StepSends(Run(acts[..n]), acts[n], s);
    assert Run(acts) == Step(Run(acts[..n]), acts[n]);
    hide Step, Run, Current, SubOf, SentTo, BundleIn;
  }

  lemma {:induction false} ResponseOrigin(acts: seq<Action>, s: StreamId, i: nat)
    requires i < |SentTo(Run(acts), s)|
    ensures exists k :: SentBy(acts, s, i, k, SentTo(Run(acts), s)[i])
  {
    assert acts != [];
    hide Run, SentTo, SentBy;
    var before := acts[..|acts| - 1];
    if i < |SentTo(Run(before), s)| {
      ResponseOrigin(before, s, i);
      var k: nat :| SentBy(before, s, i, k, SentTo(Run(before), s)[i]);
      SentStays(acts, s, i);
      SentByLonger(acts, s, i, k, SentTo(Run(before), s)[i]);
    } else {
      SentByLast(acts, s, i);
    }
  }

  /** `r` holds what the set of its version has under the names recorded when action `k` sent it. */
  ghost predicate HasContent(acts: seq<Action>, s: StreamId, k: nat, r: Response) {
    && k < |acts|
    && r.version <= |Configs(acts, r.typeUrl)|
    && var sub := SubOf(Run(acts[..k + 1]), r.typeUrl, s);
       sub.Some? && r.resources == Picked(sub.value.names, ConfigAt(acts, r.typeUrl, r.version))
  }

  lemma VersionWhenSent(acts: seq<Action>, s: StreamId, i: nat, k: nat, r: Response)
    requires SentBy(acts, s, i, k, r)
    ensures r.version == |Configs(acts[..k + 1], r.typeUrl)|
  {
    BundleMeaning(acts[..k + 1], r.typeUrl);
    hide Run, Picked, Configs;
  }

  lemma ContentWhenSent(acts: seq<Action>, s: StreamId, i: nat, k: nat, r: Response)
    requires SentBy(acts, s, i, k, r)
    ensures HasContent(acts, s, k, r)
  {
    BundleMeaning(acts[..k + 1], r.typeUrl);
    ConfigsPrefix(acts, k + 1, r.typeUrl);
    hide Run, Picked, Configs, SubOf, BundleIn;
    var cs, all := Configs(acts[..k + 1], r.typeUrl), Configs(acts, r.typeUrl);
    assert |cs| > 0 ==> cs[|cs| - 1] == all[|cs| - 1];
  }

  /**
    Every response that carries version `v`, on any stream, holds exactly the
    resources that the `v`-th configured set has under the names recorded when
    it was sent.
   */
  lemma RecordedContent(acts: seq<Action>, s: StreamId, i: nat)
    requires i < |SentTo(Run(acts), s)|
    ensures exists k :: SentBy(acts, s, i, k, SentTo(Run(acts), s)[i]) && HasContent(acts, s, k, SentTo(Run(acts), s)[i])
  {
    hide Run, SentBy, HasContent, SentTo;
    ResponseOrigin(acts, s, i);
    var r := SentTo(Run(acts), s)[i];
    var k: nat :| SentBy(acts, s, i, k, r);
    ContentWhenSent(acts, s, i, k, r);
  }

  lemma {:induction false} SentGrows(acts: seq<Action>, s: StreamId, k: nat)
    requires k <= |acts|
    ensures |SentTo(Run(acts[..k]), s)| <= |SentTo(Run(acts), s)|
  {
    if k < |acts| {
      var n := |acts| - 1;
      SentGrows(acts[..n], s, k);
      assert acts[..n][..k] == acts[..k];
      StepSends(Run(acts[..n]), acts[n], s);
    } else {
      assert acts[..k] == acts;
    }
  }

  /** Later responses were sent by later actions. */
  lemma SentInOrder(acts: seq<Action>, s: StreamId, i: nat, k: nat, a: Response, j: nat, m: nat, b: Response)
    requires i < j && SentBy(acts, s, i, k, a) && SentBy(acts, s, j, m, b)
    ensures k < m < |acts|
  {
    hide Run, Current, SubOf, SentTo, BundleIn;
    if m <= k {
      assert acts[..k + 1][..m + 1] == acts[..m + 1];
      SentGrows(acts[..k + 1], s, m + 1);
    }
  }

  /** Versions never go back on a stream. */
  lemma VersionsNeverDecrease(acts: seq<Action>, s: StreamId, i: nat, j: nat)
    requires i < j < |SentTo(Run(acts), s)|
    requires SentTo(Run(acts), s)[i].typeUrl == SentTo(Run(acts), s)[j].typeUrl
    ensures SentTo(Run(acts), s)[i].version <= SentTo(Run(acts), s)[j].version
  {
    hide Run, Configs, SentBy, SentTo;
    ResponseOrigin(acts, s, i);
    ResponseOrigin(acts, s, j);
    var a, b := SentTo(Run(acts), s)[i], SentTo(Run(acts), s)[j];
    var k: nat :| SentBy(acts, s, i, k, a);
    var m: nat :| SentBy(acts, s, j, m, b);
    SentInOrder(acts, s, i, k, a, j, m, b);
    VersionWhenSent(acts, s, i, k, a);
    VersionWhenSent(acts, s, j, m, b);
    ConfigsPrefix(acts[..m + 1], k + 1, a.typeUrl);
    assert acts[..m + 1][..k + 1] == acts[..k + 1];
  }

  // ----- Nonces -----

  /** The nonce check compares decimal text; that is comparing numbers. */
  lemma NonceCheckIsExact(sub: Subscription, m: nat)
    ensures NonceMatches(Some(sub), Decimal.Print(m)) <==> m == sub.nonce
  {
    Decimal.PrintInjective(m, sub.nonce);
  }

  /** Configurations of `t` while subscribed, since the stream was last closed. */
  ghost function Pushes(acts: seq<Action>, t: TypeUrl): (n: nat) {
    if acts == [] then 0
    else
      var before, last := acts[..|acts| - 1], acts[|acts| - 1];
      match last
      case Close(_) => 0
      case Receive(_, _) => Pushes(before, t)
      case SetConfig(u, _) => Pushes(before, t) + if u == t && t in LocalRun(before).subs then 1 else 0
  }

  /** Accepted requests that created or changed the subscription, since the stream was last closed. */
  ghost function Changes(acts: seq<Action>, t: TypeUrl): (n: nat) {
    if acts == [] then 0
    else
      var before, last := acts[..|acts| - 1], acts[|acts| - 1];
      match last
      case Close(_) => 0
      case SetConfig(_, _) => Changes(before, t)
      case Receive(_, req) =>
        Changes(before, t) +
        if ParseUrl(req.typeUrl) == Some(t) && Accepts(LocalSub(LocalRun(before), t), req) then 1 else 0
  }

  function NonceOf(l: Local, t: TypeUrl): (n: nat) { if t in l.subs then l.subs[t].nonce else 0 }

  lemma HandleNonce(l: Local, req: Request, t: TypeUrl)
    ensures NonceOf(LocalHandle(l, req), t) ==
            NonceOf(l, t) + if ParseUrl(req.typeUrl) == Some(t) && Accepts(LocalSub(l, t), req) then 1 else 0
  {
    hide Current, ParseUrl, UrlText, NamesOf, Accepts;
  }

  lemma ConfigureNonce(l: Local, u: TypeUrl, res: Resources, t: TypeUrl)
    ensures NonceOf(LocalConfigure(l, u, res), t) == NonceOf(l, t) + if u == t && t in l.subs then 1 else 0
  {
    hide Current;
  }

  lemma {:induction false} LocalNonce(acts: seq<Action>, t: TypeUrl)
    ensures Pushes(acts, t) + Changes(acts, t) == NonceOf(LocalRun(acts), t)
  {
    hide LocalHandle, LocalConfigure, ParseUrl, Accepts;
    if acts != [] {
      var before, last := acts[..|acts| - 1], acts[|acts| - 1];
      LocalNonce(before, t);
      match last
      case Close(_) =>
      case SetConfig(u, res) => ConfigureNonce(LocalRun(before), u, res, t);
      case Receive(_, req) => HandleNonce(LocalRun(before), req, t);
    }
  }

  /**
    Nonce accounting: a subscription's nonce is the number of configurations of
    its type while it existed plus the number of accepted requests that created
    or changed it.
   */
  lemma NonceAccounting(acts: seq<Action>, s: StreamId, t: TypeUrl)
    ensures var sub := SubOf(Run(acts), t, s);
            Pushes(Project(acts, s), t) + Changes(Project(acts, s), t) == if sub.Some? then sub.value.nonce else 0
  {
    RunView(acts, s);
    ViewOfSub(Run(acts), t, s);
    LocalNonce(Project(acts, s), t);
  }

  function OfType(sent: seq<Response>, t: TypeUrl): (r: seq<Response>) {
    if sent == [] then []
    else
      var last := sent[|sent| - 1];
      OfType(sent[..|sent| - 1], t) + (if last.typeUrl == t then [last] else [])
  }

  predicate IsClosed(acts: seq<Action>) { exists i :: 0 <= i < |acts| && acts[i].Close? }

  /** The stream's task handles its requests and then closes it: no request follows a close. */
  predicate LivesOnce(acts: seq<Action>) {
    acts == [] ||
    var before, last := acts[..|acts| - 1], acts[|acts| - 1];
    LivesOnce(before) && !(IsClosed(before) && last.Receive?)
  }

  ghost predicate Numbered(rs: seq<Response>) { forall i :: 0 <= i < |rs| ==> rs[i].nonce == i + 1 }

  /** The responses of a type are numbered from one; a live subscription has the last number. */
  ghost predicate Counted(l: Local, t: TypeUrl, closed: bool) {
    && Numbered(OfType(l.sent, t))
    && (closed ==> l.subs == map[])
    && (t in l.subs ==> |OfType(l.sent, t)| == l.subs[t].nonce)
    && (!closed && t !in l.subs ==> OfType(l.sent, t) == [])
  }

  lemma OfTypeMore(sent: seq<Response>, r: Response, t: TypeUrl)
    ensures OfType(sent + [r], t) == OfType(sent, t) + if r.typeUrl == t then [r] else []
  {
    assert (sent + [r])[..|sent|] == sent;
  }

  lemma PushCounted(l: Local, u: TypeUrl, sub: Subscription, t: TypeUrl)
    requires Counted(l, t, false)
    requires u == t ==> sub.nonce == (if t in l.subs then l.subs[t].nonce else 0) + 1
    ensures Counted(Push(l, u, sub), t, false)
  {
    var r := Current(u, BundleIn(l.bundles, u), sub);
    assert r.typeUrl == u && r.nonce == sub.nonce;
    hide Current, OfType;
    OfTypeMore(l.sent, r, t);
  }

  lemma StepCounted(l: Local, a: Action, t: TypeUrl, closed: bool)
    requires Counted(l, t, closed) && !(closed && a.Receive?)
    ensures Counted(LocalStep(l, a), t, closed || a.Close?)
  {
    hide Current, ParseUrl, NamesOf, NonceMatches, OfType, Numbered;
    match a
    case Close(_) =>
    case SetConfig(u, res) =>
      var l1 := l.(bundles := l.bundles[u := Bundle(BundleIn(l.bundles, u).version + 1, res)]);
      if u in l.subs {
        PushCounted(l1, u, Bumped(l.subs[u]), t);
      }
    case Receive(_, req) =>
      var url := ParseUrl(req.typeUrl);
      if url.Some? {
        PushCounted(l, url.value, NextSub(LocalSub(l, url.value), NamesOf(req)), t);
      }
  }

  lemma {:induction false} LocalCounted(acts: seq<Action>, t: TypeUrl)
    requires LivesOnce(acts)
    ensures Counted(LocalRun(acts), t, IsClosed(acts))
  {
    if acts != [] {
      var n := |acts| - 1;
      LocalCounted(acts[..n], t);
      StepCounted(LocalRun(acts[..n]), acts[n], t, IsClosed(acts[..n]));
      assert IsClosed(acts) <==> IsClosed(acts[..n]) || acts[n].Close? by {
        if IsClosed(acts[..n]) {
          var i :| 0 <= i < n && acts[..n][i].Close?;
          assert acts[i].Close?;
        }
        if IsClosed(acts) {
          var i :| 0 <= i < |acts| && acts[i].Close?;
          assert i < n ==> acts[..n][i].Close?;
        }
      }
    }
  }

  /** On a stream that closes at most once, at the end, the nonces of each type are 1, 2, 3, ... */
  lemma NoncesCountUp(acts: seq<Action>, s: StreamId, t: TypeUrl)
    requires LivesOnce(Project(acts, s))
    ensures var rs := OfType(SentTo(Run(acts), s), t);
            && Numbered(rs)
            && (SubOf(Run(acts), t, s).Some? ==> |rs| == SubOf(Run(acts), t, s).value.nonce)
  {
    RunView(acts, s);
    ViewOfSub(Run(acts), t, s);
    LocalCounted(Project(acts, s), t);
  }
}
