/**
  The aggregated-discovery control plane as a state machine: versioned resource
  bundles per type, a subscription per type and stream, and the responses sent
  to each stream.
 */
module ControlPlane {
  import opened Bytes
  import Decimal

  datatype TypeUrl = Lds | Rds | Cds | Eds | Hcm

  function UrlText(t: TypeUrl): (s: string) {
    match t
    case Lds => "type.googleapis.com/envoy.config.listener.v3.Listener"
    case Rds => "type.googleapis.com/envoy.config.route.v3.RouteConfiguration"
    case Cds => "type.googleapis.com/envoy.config.cluster.v3.Cluster"
    case Eds => "type.googleapis.com/envoy.config.endpoint.v3.ClusterLoadAssignment"
    case Hcm => "type.googleapis.com/envoy.extensions.filters.network.http_connection_manager.v3.HttpConnectionManager"
  }

  function ParseUrl(s: string): (r: Option<TypeUrl>)
    ensures r.Some? ==> s == UrlText(r.value)
  {
    if s == UrlText(Lds) then Some(Lds)
    else if s == UrlText(Rds) then Some(Rds)
    else if s == UrlText(Cds) then Some(Cds)
    else if s == UrlText(Eds) then Some(Eds)
    else if s == UrlText(Hcm) then Some(Hcm)
    else None
  }

  type StreamId = int

  datatype Any = Any(typeUrl: string, value: seq<byte>)

  type Resources = map<string, Any>

  datatype Request = Request(typeUrl: string, resourceNames: seq<string>, responseNonce: string, hasError: bool)

  /** Version and nonce go out as decimal text; the resources come in no particular order. */
  datatype Response = Response(typeUrl: TypeUrl, version: nat, nonce: nat, resources: multiset<Any>)

  datatype Subscription = Subscription(names: set<string>, nonce: nat)

  datatype Bundle = Bundle(version: nat, resources: Resources)

  const EMPTY_BUNDLE := Bundle(0, map[])

  datatype State = State(
    bundles: map<TypeUrl, Bundle>,
    subscribers: map<TypeUrl, map<StreamId, Subscription>>,
    sent: map<StreamId, seq<Response>>)

  datatype Action =
    | SetConfig(typeUrl: TypeUrl, resources: Resources)
    | Receive(stream: StreamId, request: Request)
    | Close(stream: StreamId)

  // ----- Responses -----

  function One(n: string, res: Resources): (r: multiset<Any>) {
    if n in res then multiset{res[n]} else multiset{}
  }

  /** The configured resources among the requested names. */
  ghost function Picked(names: set<string>, res: Resources): (r: multiset<Any>) {
    if names == {} then multiset{}
    else var n :| n in names; Picked(names - {n}, res) + One(n, res)
  }

  ghost function BuildResponse(t: TypeUrl, version: nat, nonce: nat, names: set<string>, res: Resources): (r: Response) {
    Response(t, version, nonce, Picked(names, res))
  }

  lemma {:induction false} PickedRemove(names: set<string>, res: Resources, n: string)
    requires n in names
    ensures Picked(names, res) == Picked(names - {n}, res) + One(n, res)
    decreases names
  {
    var m :| m in names && Picked(names, res) == Picked(names - {m}, res) + One(m, res);
    if m != n {
      PickedRemove(names - {m}, res, n);
      PickedRemove(names - {n}, res, m);
      assert names - {m} - {n} == names - {n} - {m};
    }
  }

  /** The requested names that are configured with the value `a`. */
  function NamesFor(names: set<string>, res: Resources, a: Any): (r: set<string>) {
    set n | n in names && n in res && res[n] == a
  }

  lemma NamesForRemove(names: set<string>, res: Resources, a: Any, n: string)
    requires n in names
    ensures |NamesFor(names, res, a)| == |NamesFor(names - {n}, res, a)| + One(n, res)[a]
  {
    var s, s' := NamesFor(names, res, a), NamesFor(names - {n}, res, a);
    if n in res && res[n] == a {
      assert s == s' + {n};
    } else {
      assert s == s';
    }
  }

  /** Each value is there as often as a requested name is configured with it. */
  lemma {:induction false} PickedMeaning(names: set<string>, res: Resources, a: Any)
    ensures Picked(names, res)[a] == |NamesFor(names, res, a)|
    decreases names
  {
    if names != {} {
      var n :| n in names;
      PickedRemove(names, res, n);
      PickedMeaning(names - {n}, res, a);
      hide Picked, NamesFor;
      NamesForRemove(names, res, a, n);
    }
  }

  // ----- Lookups -----

  function BundleIn(bundles: map<TypeUrl, Bundle>, t: TypeUrl): (b: Bundle) {
    if t in bundles then bundles[t] else EMPTY_BUNDLE
  }

  function StreamsOf(st: State, t: TypeUrl): (m: map<StreamId, Subscription>) {
    if t in st.subscribers then st.subscribers[t] else map[]
  }

  function SubOf(st: State, t: TypeUrl, s: StreamId): (r: Option<Subscription>) {
    if s in StreamsOf(st, t) then Some(StreamsOf(st, t)[s]) else None
  }

  function SentIn(sent: map<StreamId, seq<Response>>, s: StreamId): (r: seq<Response>) {
    if s in sent then sent[s] else []
  }

  function SentTo(st: State, s: StreamId): (r: seq<Response>) { SentIn(st.sent, s) }

  // ----- Steps -----

  function NamesOf(req: Request): (r: set<string>) { set n | n in req.resourceNames }

  /** An empty nonce is always accepted, any other only when it is the last one sent. */
  predicate NonceMatches(sub: Option<Subscription>, nonce: string) {
    nonce == "" || (sub.Some? && Decimal.Print(sub.value.nonce) == nonce)
  }

  /** The request creates or changes the subscription `sub` of its type on its stream. */
  predicate Accepts(sub: Option<Subscription>, req: Request) {
    && !req.hasError
    && NonceMatches(sub, req.responseNonce)
    && (sub.None? || sub.value.names != NamesOf(req))
  }

  function NextSub(sub: Option<Subscription>, names: set<string>): (r: Subscription) {
    Subscription(names, if sub.Some? then sub.value.nonce + 1 else 1)
  }

  /** The response that brings a subscription up to date. */
  ghost function Current(t: TypeUrl, b: Bundle, sub: Subscription): (r: Response) {
    BuildResponse(t, b.version, sub.nonce, sub.names, b.resources)
  }

  ghost function Subscribe(st: State, t: TypeUrl, s: StreamId, names: set<string>): (r: State) {
    var sub := NextSub(SubOf(st, t, s), names);
    st.(subscribers := st.subscribers[t := StreamsOf(st, t)[s := sub]],
        sent := st.sent[s := SentTo(st, s) + [Current(t, BundleIn(st.bundles, t), sub)]])
  }

  ghost function Handle(st: State, s: StreamId, req: Request): (r: State) {
    match ParseUrl(req.typeUrl)
    case None => st
    case Some(t) => if Accepts(SubOf(st, t, s), req) then Subscribe(st, t, s, NamesOf(req)) else st
  }

  function Bumped(sub: Subscription): (r: Subscription) { sub.(nonce := sub.nonce + 1) }

  function BumpAll(streams: map<StreamId, Subscription>): (r: map<StreamId, Subscription>) {
    map s | s in streams :: Bumped(streams[s])
  }

  /** For each subscriber, the responses sent so far and one more. */
  ghost function PushAll(sent: map<StreamId, seq<Response>>, t: TypeUrl, b: Bundle, streams: map<StreamId, Subscription>)
    : (r: map<StreamId, seq<Response>>)
  {
    map s | s in streams :: SentIn(sent, s) + [Current(t, b, Bumped(streams[s]))]
  }

  /** Stores a new set of resources and pushes it to every subscriber of the type. */
  ghost function Configure(st: State, t: TypeUrl, res: Resources): (r: State) {
    var b := Bundle(BundleIn(st.bundles, t).version + 1, res);
    var streams := StreamsOf(st, t);
    State(
      st.bundles[t := b],
      if t in st.subscribers then st.subscribers[t := BumpAll(streams)] else st.subscribers,
      st.sent + PushAll(st.sent, t, b, streams))
  }

  function CloseStream(st: State, s: StreamId): (r: State) {
    st.(subscribers := map t | t in st.subscribers :: st.subscribers[t] - {s})
  }

  ghost function Step(st: State, a: Action): (r: State) {
    match a
    case SetConfig(t, res) => Configure(st, t, res)
    case Receive(s, req) => Handle(st, s, req)
    case Close(s) => CloseStream(st, s)
  }

  const TYPES: set<TypeUrl> := {Lds, Rds, Cds, Eds, Hcm}

  function Initial(): (st: State) {
    State(map t | t in TYPES :: EMPTY_BUNDLE, map t | t in TYPES :: map[], map[])
  }

  /** The state after a sequence of actions, each of which runs under the lock. */
  ghost function Run(acts: seq<Action>): (st: State) {
    if acts == [] then Initial() else Step(Run(acts[..|acts| - 1]), acts[|acts| - 1])
  }

  /** A request is without effect exactly when it is a rejection, of unknown type, stale or unchanged. */
  lemma IgnoredExactly(st: State, s: StreamId, req: Request)
    ensures Handle(st, s, req) == st <==>
            || req.hasError
            || ParseUrl(req.typeUrl).None?
            || var sub := SubOf(st, ParseUrl(req.typeUrl).value, s);
               || (req.responseNonce != "" && (sub.None? || Decimal.Print(sub.value.nonce) != req.responseNonce))
               || (sub.Some? && sub.value.names == NamesOf(req))
  {
    hide ParseUrl, Picked, NamesOf, Decimal.Print;
    if ParseUrl(req.typeUrl).Some? {
      var t := ParseUrl(req.typeUrl).value;
      if Accepts(SubOf(st, t, s), req) {
        var next := Subscribe(st, t, s, NamesOf(req));
        assert |SentTo(next, s)| == |SentTo(st, s)| + 1;
      }
    }
  }
}
