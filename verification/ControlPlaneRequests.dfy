/** Which request a subscription goes back to, and what was asked for in it. */
module ControlPlaneRequests {
  import opened Bytes
  import opened ControlPlane
  import opened ControlPlaneLaws
  import opened ControlPlaneHistory
  import Decimal

  // ----- Requests -----

  lemma UrlTable()
    ensures UrlText(Lds) == "type.googleapis.com/envoy.config.listener.v3.Listener"
    ensures UrlText(Rds) == "type.googleapis.com/envoy.config.route.v3.RouteConfiguration"
    ensures UrlText(Cds) == "type.googleapis.com/envoy.config.cluster.v3.Cluster"
    ensures UrlText(Eds) == "type.googleapis.com/envoy.config.endpoint.v3.ClusterLoadAssignment"
    ensures UrlText(Hcm) ==
            "type.googleapis.com/envoy.extensions.filters.network.http_connection_manager.v3.HttpConnectionManager"
  {
  }

  lemma UrlLengths()
    ensures |UrlText(Lds)| == 53 && |UrlText(Rds)| == 60 && |UrlText(Cds)| == 51 && |UrlText(Eds)| == 66
    ensures |UrlText(Hcm)| == 101
  {
  }

  /** A type URL is recognised exactly when it is the text of that type. */
  lemma UrlsAreRead(u: string, t: TypeUrl)
    ensures ParseUrl(u) == Some(t) <==> u == UrlText(t)
  {
    UrlLengths();
    hide UrlText;
  }

  /** `names` are the names asked for, no more and no fewer. */
  ghost predicate AskedFor(req: Request, names: set<string>) {
    forall n :: n in names <==> n in req.resourceNames
  }

  lemma NamesAreAskedFor(req: Request, names: set<string>)
    ensures names == NamesOf(req) <==> AskedFor(req, names)
  {
    assert AskedFor(req, NamesOf(req));
    if AskedFor(req, names) {
      assert names == NamesOf(req);
    }
  }

  /** The nonce is absent, or that of the last response to this subscription. */
  predicate IsFresh(sub: Option<Subscription>, nonce: string) {
    nonce == "" || (sub.Some? && nonce == Decimal.Print(sub.value.nonce))
  }

  /** The request is for `t`, rejects nothing, is not stale, and asks for names that are not the recorded ones. */
  ghost predicate TakesEffect(req: Request, t: TypeUrl, sub: Option<Subscription>) {
    && req.typeUrl == UrlText(t)
    && !req.hasError
    && IsFresh(sub, req.responseNonce)
    && (sub.None? || !AskedFor(req, sub.value.names))
  }

  lemma EffectIsAcceptance(req: Request, t: TypeUrl, sub: Option<Subscription>)
    ensures TakesEffect(req, t, sub) <==> ParseUrl(req.typeUrl) == Some(t) && Accepts(sub, req)
  {
    hide UrlText, ParseUrl, NamesOf, AskedFor, Decimal.Print;
    UrlsAreRead(req.typeUrl, t);
    if sub.Some? {
      NamesAreAskedFor(req, sub.value.names);
    }
  }

  // ----- One subscription, step by step -----

  lemma PushSub(l: Local, u: TypeUrl, sub: Subscription, t: TypeUrl)
    ensures LocalSub(Push(l, u, sub), t) == if u == t then Some(sub) else LocalSub(l, t)
  {
    hide Current;
  }

  lemma LocalConfigureSub(l: Local, u: TypeUrl, res: Resources, t: TypeUrl)
    ensures LocalSub(LocalConfigure(l, u, res), t) == if u == t && t in l.subs then Some(Bumped(l.subs[t])) else LocalSub(l, t)
  {
    hide Push;
    var l1 := l.(bundles := l.bundles[u := Bundle(BundleIn(l.bundles, u).version + 1, res)]);
    if u in l.subs {
      PushSub(l1, u, Bumped(l.subs[u]), t);
    }
  }

  lemma LocalHandleSub(l: Local, req: Request, t: TypeUrl)
    ensures LocalSub(LocalHandle(l, req), t) ==
            if TakesEffect(req, t, LocalSub(l, t)) then Some(NextSub(LocalSub(l, t), NamesOf(req))) else LocalSub(l, t)
  {
    hide Push, ParseUrl, NamesOf, Accepts, TakesEffect, NextSub, LocalSub;
    EffectIsAcceptance(req, t, LocalSub(l, t));
    if ParseUrl(req.typeUrl).Some? {
      var u := ParseUrl(req.typeUrl).value;
      PushSub(l, u, NextSub(LocalSub(l, u), NamesOf(req)), t);
    }
  }

  lemma LocalStepSub(l: Local, a: Action, t: TypeUrl)
    ensures LocalSub(LocalStep(l, a), t) ==
            match a {
              case Close(_) => None
              case SetConfig(u, _) => if u == t && t in l.subs then Some(Bumped(l.subs[t])) else LocalSub(l, t)
              case Receive(_, req) =>
                if TakesEffect(req, t, LocalSub(l, t)) then Some(NextSub(LocalSub(l, t), NamesOf(req))) else LocalSub(l, t)
            }
  {
    hide LocalConfigure, LocalHandle, NamesOf, TakesEffect, NextSub;
    match a
    case Close(_) =>
    case SetConfig(u, res) => LocalConfigureSub(l, u, res, t);
    case Receive(_, req) => LocalHandleSub(l, req, t);
  }

  /** What an action makes of the subscription of `t` on `s`. */
  lemma StepSub(st: State, a: Action, t: TypeUrl, s: StreamId)
    ensures var sub := SubOf(st, t, s);
            SubOf(Step(st, a), t, s) ==
            match a {
              case Close(c) => if c == s then None else sub
              case SetConfig(u, _) => if u == t && sub.Some? then Some(Bumped(sub.value)) else sub
              case Receive(c, req) =>
                if c == s && TakesEffect(req, t, sub) then Some(NextSub(sub, NamesOf(req))) else sub
            }
  {
    StepView(st, a, s);
    ViewOfSub(st, t, s);
    ViewOfSub(Step(st, a), t, s);
    LocalStepSub(ViewOf(st, s), a, t);
    hide Step, LocalStep, SubOf, ViewOf, NamesOf, TakesEffect;
  }

  /** Action `k` created or changed the subscription of `t` on `s`. */
  ghost predicate Subscribes(acts: seq<Action>, k: nat, t: TypeUrl, s: StreamId) {
    && k < |acts| && acts[k].Receive? && acts[k].stream == s
    && TakesEffect(acts[k].request, t, SubOf(Run(acts[..k]), t, s))
  }

  /** It is the last that did, and the stream has not been closed since. */
  ghost predicate IsOrigin(acts: seq<Action>, k: nat, t: TypeUrl, s: StreamId) {
    && Subscribes(acts, k, t, s)
    && forall m :: k < m < |acts| ==> acts[m] != Close(s) && !Subscribes(acts, m, t, s)
  }

  lemma SubscribesLonger(acts: seq<Action>, k: nat, t: TypeUrl, s: StreamId)
    requires k + 1 < |acts|
    ensures Subscribes(acts[..|acts| - 1], k, t, s) <==> Subscribes(acts, k, t, s)
  {
    hide Run, TakesEffect, SubOf;
    assert acts[..|acts| - 1][..k] == acts[..k];
  }

  lemma OriginLonger(acts: seq<Action>, k: nat, t: TypeUrl, s: StreamId)
    requires k + 1 < |acts|
    ensures IsOrigin(acts, k, t, s) <==>
            && IsOrigin(acts[..|acts| - 1], k, t, s)
            && acts[|acts| - 1] != Close(s) && !Subscribes(acts, |acts| - 1, t, s)
  {
    var n := |acts| - 1;
    hide Subscribes;
    SubscribesLonger(acts, k, t, s);
    forall m | k < m < n ensures Subscribes(acts[..n], m, t, s) <==> Subscribes(acts, m, t, s) {
      SubscribesLonger(acts, m, t, s);
    }
    assert forall m :: 0 <= m < n ==> acts[..n][m] == acts[m];
  }

  lemma StepSubscribes(st: State, req: Request, t: TypeUrl, s: StreamId)
    requires TakesEffect(req, t, SubOf(st, t, s))
    ensures var sub := SubOf(Step(st, Receive(s, req)), t, s); sub.Some? && AskedFor(req, sub.value.names)
  {
    StepSub(st, Receive(s, req), t, s);
    NamesAreAskedFor(req, NamesOf(req));
    hide Step, SubOf, TakesEffect, AskedFor, NamesOf;
  }

  lemma StepKeepsNames(st: State, a: Action, t: TypeUrl, s: StreamId)
    requires a != Close(s) && !(a.Receive? && a.stream == s && TakesEffect(a.request, t, SubOf(st, t, s)))
    requires SubOf(st, t, s).Some?
    ensures var sub := SubOf(Step(st, a), t, s); sub.Some? && sub.value.names == SubOf(st, t, s).value.names
  {
    StepSub(st, a, t, s);
    hide Step, SubOf, TakesEffect, NamesOf;
  }

  /** The names of a subscription are those of the request that it goes back to. */
  lemma {:induction false} NamesFromOrigin(acts: seq<Action>, k: nat, t: TypeUrl, s: StreamId)
    requires IsOrigin(acts, k, t, s)
    ensures SubOf(Run(acts), t, s).Some? && AskedFor(acts[k].request, SubOf(Run(acts), t, s).value.names)
    decreases |acts|
  {
    var n := |acts| - 1;
    var before := acts[..n];
    hide Step, SubOf, TakesEffect, AskedFor;
    if k < n {
      OriginLonger(acts, k, t, s);
      NamesFromOrigin(before, k, t, s);
      StepKeepsNames(Run(before), acts[n], t, s);
    } else {
      StepSubscribes(Run(before), acts[k].request, t, s);
    }
  }

  lemma {:induction false} SubscriptionHasOrigin(acts: seq<Action>, t: TypeUrl, s: StreamId)
    requires SubOf(Run(acts), t, s).Some?
    ensures exists k :: IsOrigin(acts, k, t, s)
    decreases |acts|
  {
    if acts == [] {
      assert false;
    }
    var n := |acts| - 1;
    var before, a := acts[..n], acts[n];
    StepSub(Run(before), a, t, s);
    hide Step, SubOf, TakesEffect, NamesOf, IsOrigin;
    if Subscribes(acts, n, t, s) {
      LastIsOrigin(acts, t, s);
    } else {
      hide Subscribes;
      SubscriptionHasOrigin(before, t, s);
      var k: nat :| IsOrigin(before, k, t, s);
      OriginIsEarlier(before, k, t, s);
      OriginLonger(acts, k, t, s);
    }
  }

  lemma LastIsOrigin(acts: seq<Action>, t: TypeUrl, s: StreamId)
    requires acts != [] && Subscribes(acts, |acts| - 1, t, s)
    ensures IsOrigin(acts, |acts| - 1, t, s)
  {
  }

  lemma OriginIsEarlier(acts: seq<Action>, k: nat, t: TypeUrl, s: StreamId)
    requires IsOrigin(acts, k, t, s)
    ensures k < |acts| && acts[k].Receive?
  {
  }

  /**
    In every run a stream has a subscription exactly when a request for it took
    effect after the stream was last closed, and its names are exactly those of
    the last such request.
   */
  lemma SubscriptionOrigin(acts: seq<Action>, t: TypeUrl, s: StreamId)
    ensures SubOf(Run(acts), t, s).Some? <==> exists k: nat :: IsOrigin(acts, k, t, s)
    ensures forall k: nat :: IsOrigin(acts, k, t, s) ==>
              && k < |acts| && acts[k].Receive? && SubOf(Run(acts), t, s).Some?
              && AskedFor(acts[k].request, SubOf(Run(acts), t, s).value.names)
  {
    hide IsOrigin, Run, SubOf, AskedFor;
    forall k: nat | IsOrigin(acts, k, t, s)
      ensures k < |acts| && acts[k].Receive?
      ensures SubOf(Run(acts), t, s).Some? && AskedFor(acts[k].request, SubOf(Run(acts), t, s).value.names)
    {
      OriginIsEarlier(acts, k, t, s);
      NamesFromOrigin(acts, k, t, s);
    }
    if SubOf(Run(acts), t, s).Some? {
      SubscriptionHasOrigin(acts, t, s);
    }
  }

  // ----- Requests without effect -----

  lemma EffectSends(st: State, s: StreamId, req: Request, t: TypeUrl)
    requires TakesEffect(req, t, SubOf(st, t, s))
    ensures |SentTo(Handle(st, s, req), s)| == |SentTo(st, s)| + 1
  {
    hide Current, NamesOf, NextSub, Accepts, TakesEffect, ParseUrl;
    EffectIsAcceptance(req, t, SubOf(st, t, s));
  }

  /** A request leaves everything as it was exactly when it takes effect for no type. */
  lemma IgnoredUnlessEffective(st: State, s: StreamId, req: Request)
    ensures Handle(st, s, req) == st <==> forall t :: !TakesEffect(req, t, SubOf(st, t, s))
  {
    hide SentTo, Subscribe, NamesOf, Accepts, TakesEffect, ParseUrl, SubOf;
    forall t | TakesEffect(req, t, SubOf(st, t, s)) ensures Handle(st, s, req) != st {
      EffectSends(st, s, req, t);
    }
    if ParseUrl(req.typeUrl).Some? {
      var t := ParseUrl(req.typeUrl).value;
      EffectIsAcceptance(req, t, SubOf(st, t, s));
    }
  }

  // ----- The content of a response -----

  /** The names asked for that are configured with the value `a`. */
  function AskedNames(req: Request, res: Resources, a: Any): (r: set<string>) {
    set n | n in req.resourceNames && n in res && res[n] == a
  }

  /** Each value is there once per name that the request asks for and that is configured with it. */
  ghost predicate HoldsAsked(resources: multiset<Any>, req: Request, res: Resources) {
    forall a :: resources[a] == |AskedNames(req, res, a)|
  }

  lemma AskedArePicked(req: Request, names: set<string>, res: Resources)
    requires AskedFor(req, names)
    ensures HoldsAsked(Picked(names, res), req, res)
  {
    forall a ensures Picked(names, res)[a] == |AskedNames(req, res, a)| {
      PickedMeaning(names, res, a);
      assert NamesFor(names, res, a) == AskedNames(req, res, a);
    }
  }

  /** Action `k` sent `r` for the request of action `j`, out of the set that has the version of `r`. */
  ghost predicate AnswersRequest(acts: seq<Action>, s: StreamId, k: nat, j: nat, r: Response) {
    && j <= k < |acts| && acts[j].Receive?
    && IsOrigin(acts[..k + 1], j, r.typeUrl, s)
    && r.version <= |Configs(acts, r.typeUrl)|
    && HoldsAsked(r.resources, acts[j].request, ConfigAt(acts, r.typeUrl, r.version))
  }

  lemma {:induction false} ContentIsAsked(acts: seq<Action>, s: StreamId, k: nat, r: Response) returns (j: nat)
    requires HasContent(acts, s, k, r)
    ensures AnswersRequest(acts, s, k, j, r)
  {
    hide Run, SubOf, Configs, Picked, IsOrigin, HoldsAsked, AskedFor;
    var acts1 := acts[..k + 1];
    SubscriptionHasOrigin(acts1, r.typeUrl, s);
    var o: nat :| IsOrigin(acts1, o, r.typeUrl, s);
    OriginIsEarlier(acts1, o, r.typeUrl, s);
    NamesFromOrigin(acts1, o, r.typeUrl, s);
    assert acts1[o] == acts[o];
    AskedArePicked(acts[o].request, SubOf(Run(acts1), r.typeUrl, s).value.names, ConfigAt(acts, r.typeUrl, r.version));
    j := o;
  }

  /**
    A version determines content: every response that carries version `v`, on
    any stream, holds exactly what the `v`-th configured set has under the names
    of the request that its subscription went back to when it was sent.
   */
  lemma VersionDeterminesContent(acts: seq<Action>, s: StreamId, i: nat)
    requires i < |SentTo(Run(acts), s)|
    ensures exists k: nat, j: nat ::
              SentBy(acts, s, i, k, SentTo(Run(acts), s)[i]) && AnswersRequest(acts, s, k, j, SentTo(Run(acts), s)[i])
  {
    hide Run, SentBy, HasContent, SentTo, AnswersRequest;
    RecordedContent(acts, s, i);
    var r := SentTo(Run(acts), s)[i];
    var k: nat :| SentBy(acts, s, i, k, r) && HasContent(acts, s, k, r);
    var j := ContentIsAsked(acts, s, k, r);
  }
}
