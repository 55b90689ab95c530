/** The control plane as a mutable object; each method runs under its one lock. */
module AdsServer {
  import opened ControlPlane
  import Decimal

  /** Collects the configured resources among the requested names, in whatever order the set yields them. */
  method Pick(names: set<string>, res: Resources) returns (resources: seq<Any>)
    ensures multiset(resources) == Picked(names, res)
  {
    resources := [];
    var rest := names;
    while rest != {}
      invariant rest <= names
      invariant multiset(resources) + Picked(rest, res) == Picked(names, res)
      decreases rest
    {
      var n :| n in rest;
      PickedRemove(rest, res, n);
      if n in res {
        resources := resources + [res[n]];
      }
      rest := rest - {n};
    }
  }

  method Build(t: TypeUrl, version: nat, nonce: nat, names: set<string>, res: Resources) returns (r: Response)
    ensures r == BuildResponse(t, version, nonce, names, res)
  {
    var resources := Pick(names, res);
    r := Response(t, version, nonce, multiset(resources));
  }

  class Server {
    var bundles: map<TypeUrl, Bundle>
    var subscribers: map<TypeUrl, map<StreamId, Subscription>>
    /** The outbound channel of each stream: everything ever sent to it. */
    var sent: map<StreamId, seq<Response>>
    var nextStreamId: StreamId

    function State(): (st: State)
      reads this
    {
      ControlPlane.State(bundles, subscribers, sent)
    }

    constructor ()
      ensures State() == Initial() && nextStreamId == 0
    {
      bundles := map t | t in TYPES :: EMPTY_BUNDLE;
      subscribers := map t | t in TYPES :: map[];
      sent := map[];
      nextStreamId := 0;
    }

    /** Stream identifiers are handed out in order and never again. */
    method OpenStream() returns (id: StreamId)
      modifies this`nextStreamId
      ensures id == old(nextStreamId) && nextStreamId == old(nextStreamId) + 1
    {
      id := nextStreamId;
      nextStreamId := nextStreamId + 1;
    }

    method Send(s: StreamId, r: Response)
      modifies this`sent
      ensures sent == old(sent)[s := SentIn(old(sent), s) + [r]]
    {
      sent := sent[s := (if s in sent then sent[s] else []) + [r]];
    }

    method HandleRequest(s: StreamId, req: Request)
      modifies this`subscribers, this`sent
      ensures State() == Step(old(State()), Receive(s, req))
    {
      hide Subscribe, ParseUrl;
      if req.hasError {
        return;
      }
      var url := ParseUrl(req.typeUrl);
      if url.None? {
        return;
      }
      var t := url.value;
      var streams := if t in subscribers then subscribers[t] else map[];
      if req.responseNonce != "" {
        var matches := s in streams && Decimal.Print(streams[s].nonce) == req.responseNonce;
        if !matches {
          return;
        }
      }
      var requested := set n | n in req.resourceNames;
      if s in streams && streams[s].names == requested {
        return;
      }
      Resubscribe(t, s, requested);
    }

    /** Creates or changes a subscription and sends the response that it calls for. */
    method Resubscribe(t: TypeUrl, s: StreamId, requested: set<string>)
      modifies this`subscribers, this`sent
      ensures State() == Subscribe(old(State()), t, s, requested)
    {
      hide Picked;
      var streams := if t in subscribers then subscribers[t] else map[];
      var bundle := if t in bundles then bundles[t] else EMPTY_BUNDLE;
      var sub := if s in streams then streams[s] else Subscription({}, 0);
      sub := sub.(nonce := sub.nonce + 1);
      var response := Build(t, bundle.version, sub.nonce, requested, bundle.resources);
      Send(s, response);
      sub := sub.(names := requested);
      subscribers := subscribers[t := streams[s := sub]];
    }

    method RemoveStream(s: StreamId)
      modifies this`subscribers
      ensures State() == Step(old(State()), Close(s))
    {
      var rest := subscribers.Keys;
      while rest != {}
        invariant rest <= subscribers.Keys == old(subscribers).Keys
        invariant forall t :: t in subscribers ==>
                    subscribers[t] == if t in rest then old(subscribers)[t] else old(subscribers)[t] - {s}
        decreases rest
      {
        var t :| t in rest;
        subscribers := subscribers[t := subscribers[t] - {s}];
        rest := rest - {t};
      }
      assert subscribers == CloseStream(old(State()), s).subscribers;
    }

    /** Stores the resources under the next version and pushes them to every subscriber. */
    method SetPackedXdsConfig(t: TypeUrl, packed: Resources)
      modifies this`bundles, this`subscribers, this`sent
      ensures State() == Step(old(State()), SetConfig(t, packed))
    {
      ConfigureByCase(State(), t, packed);
      hide Configure, PushAll, BumpAll;
      var bundle := if t in bundles then bundles[t] else EMPTY_BUNDLE;
      bundle := Bundle(bundle.version + 1, packed);
      bundles := bundles[t := bundle];
      if t in subscribers {
        PushToAll(t, bundle);
      }
    }

    method PushToAll(t: TypeUrl, bundle: Bundle)
      requires t in subscribers
      modifies this`subscribers, this`sent
      ensures subscribers == old(subscribers)[t := BumpAll(old(subscribers)[t])]
      ensures sent == old(sent) + PushAll(old(sent), t, bundle, old(subscribers)[t])
    {
      var streams := subscribers[t];
      ghost var was, before := streams, sent;
      var rest := streams.Keys;
      PushedNone(before, t, bundle, was);
      hide Pushed, PushAll, BumpAll, BuildResponse;
      while rest != {}
        invariant rest <= was.Keys == streams.Keys && subscribers == old(subscribers)
        invariant Pushed(before, t, bundle, was, rest, streams, sent)
        decreases rest
      {
        SomeStream(rest);
        var s :| s in rest;
        var sub := streams[s];
        sub := sub.(nonce := sub.nonce + 1);
        var response := Build(t, bundle.version, sub.nonce, sub.names, bundle.resources);
        PushOne(before, t, bundle, was, rest, streams, sent, s);
        Send(s, response);
        streams := streams[s := sub];
        rest := rest - {s};
      }
      PushedAll(before, t, bundle, was, streams, sent);
      subscribers := subscribers[t := streams];
    }
  }

  lemma SomeStream(rest: set<StreamId>)
    ensures rest != {} ==> exists s :: s in rest
  {
    if forall s :: s !in rest {
      assert rest == {};
    }
  }

  lemma ConfigureByCase(st: State, t: TypeUrl, res: Resources)
    ensures var b := Bundle(BundleIn(st.bundles, t).version + 1, res);
            Configure(st, t, res) ==
            if t !in st.subscribers then st.(bundles := st.bundles[t := b])
            else State(st.bundles[t := b], st.subscribers[t := BumpAll(st.subscribers[t])],
                       st.sent + PushAll(st.sent, t, b, st.subscribers[t]))
  {
    var b := Bundle(BundleIn(st.bundles, t).version + 1, res);
    assert st.sent + PushAll(st.sent, t, b, map[]) == st.sent;
    hide PushAll, BumpAll;
  }

  /** All subscriptions but those in `rest` have the next nonce. */
  ghost predicate BumpedBut(was: map<StreamId, Subscription>, rest: set<StreamId>, streams: map<StreamId, Subscription>) {
    && streams.Keys == was.Keys
    && forall s :: s in was ==> streams[s] == if s in rest then was[s] else Bumped(was[s])
  }

  /** All subscribers of `t` but those in `rest` have been served. */
  ghost predicate Pushed(before: map<StreamId, seq<Response>>, t: TypeUrl, b: Bundle, was: map<StreamId, Subscription>,
                         rest: set<StreamId>, streams: map<StreamId, Subscription>, sent: map<StreamId, seq<Response>>) {
    BumpedBut(was, rest, streams) && sent == before + PushAll(before, t, b, was - rest)
  }

  lemma PushedNone(before: map<StreamId, seq<Response>>, t: TypeUrl, b: Bundle, was: map<StreamId, Subscription>)
    ensures Pushed(before, t, b, was, was.Keys, was, before)
  {
    assert before + PushAll(before, t, b, was - was.Keys) == before;
  }

  lemma PushAllAdd(sent: map<StreamId, seq<Response>>, t: TypeUrl, b: Bundle, m: map<StreamId, Subscription>,
                   s: StreamId, sub: Subscription)
    requires s !in m
    ensures sent + PushAll(sent, t, b, m[s := sub]) ==
            (sent + PushAll(sent, t, b, m))[s := SentIn(sent, s) + [Current(t, b, Bumped(sub))]]
    ensures SentIn(sent + PushAll(sent, t, b, m), s) == SentIn(sent, s)
  {
    hide Current;
  }

  lemma ServeOne(before: map<StreamId, seq<Response>>, t: TypeUrl, b: Bundle, was: map<StreamId, Subscription>,
                 rest: set<StreamId>, s: StreamId)
    requires s in rest && s in was
    ensures var sent := before + PushAll(before, t, b, was - rest);
            before + PushAll(before, t, b, was - (rest - {s})) ==
            sent[s := SentIn(sent, s) + [Current(t, b, Bumped(was[s]))]]
  {
    assert was - (rest - {s}) == (was - rest)[s := was[s]];
    hide PushAll, Current, SentIn;
    PushAllAdd(before, t, b, was - rest, s, was[s]);
  }

  /** Serving one more subscriber. */
  lemma PushOne(before: map<StreamId, seq<Response>>, t: TypeUrl, b: Bundle, was: map<StreamId, Subscription>,
                rest: set<StreamId>, streams: map<StreamId, Subscription>, sent: map<StreamId, seq<Response>>, s: StreamId)
    requires s in rest && s in was && s in streams && Pushed(before, t, b, was, rest, streams, sent)
    ensures var sub := Bumped(streams[s]);
            Pushed(before, t, b, was, rest - {s}, streams[s := sub], sent[s := SentIn(sent, s) + [Current(t, b, sub)]])
  {
    assert streams[s] == was[s];
    assert BumpedBut(was, rest - {s}, streams[s := Bumped(was[s])]);
    hide PushAll, Current, SentIn, BumpedBut;
    ServeOne(before, t, b, was, rest, s);
  }

  lemma PushedAll(before: map<StreamId, seq<Response>>, t: TypeUrl, b: Bundle, was: map<StreamId, Subscription>,
                  streams: map<StreamId, Subscription>, sent: map<StreamId, seq<Response>>)
    requires Pushed(before, t, b, was, {}, streams, sent)
    ensures streams == BumpAll(was) && sent == before + PushAll(before, t, b, was)
  {
    assert streams == BumpAll(was);
    hide PushAll, BumpAll;
    assert was - {} == was;
  }
}
