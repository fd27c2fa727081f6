/** Call offers: the outbound `<call><offer>` printer and the inbound parser. */
module Offer {
  import opened Bytes
  import opened Stanza
  import opened Relay

  const CAPABILITY_STANDARD_OPUS: seq<byte> := [0x01, 0x05, 0xf7, 0x09, 0xe0, 0x3b, 0x13]

  datatype OfferEnc = OfferEnc(encType: string, version: u32, ciphertext: seq<byte>)

  datatype ParsedOffer = ParsedOffer(
    callId: string, callCreator: string, sender: string, isVideo: bool, audioRates: seq<u32>,
    enc: OfferEnc, relay: Option<RelayData>, mlow: bool)

  datatype DeviceKey = DeviceKey(deviceJid: string, encType: string, ciphertext: seq<byte>)

  // ----- parsing -----

  /** The MLow gate: bit 7 of byte 5. */
  predicate WantsMlow(blob: seq<byte>) { |blob| > 5 && blob[5] / 0x80 == 1 }

  function ParseEnc(enc: Node): (r: Option<OfferEnc>) {
    match NodeBytes(enc)
    case None => None
    case Some(ct) =>
      if ct == [] then None
      else
        Some(OfferEnc(
               match Attr(enc, "type") case None => "pkmsg" case Some(t) => t,
               match U32Attr(enc, "v") case None => 2 case Some(v) => v,
               ct))
  }

  /** The `<enc>` of the first `<to>` addressed to `ownLid` that has one. */
  function EncAmong(tos: seq<Node>, ownLid: string): (r: Option<OfferEnc>) {
    if |tos| == 0 then None
    else if Attr(tos[0], "jid") == Some(ownLid) && Child(tos[0], "enc").Some? then ParseEnc(Child(tos[0], "enc").value)
    else EncAmong(tos[1..], ownLid)
  }

  function EncForDevice(offer: Node, ownLid: string): (r: Option<OfferEnc>) {
    match Child(offer, "enc")
    case Some(enc) => ParseEnc(enc)
    case None =>
      match Child(offer, "destination")
      case None => None
      case Some(dest) => EncAmong(Children(dest, "to"), ownLid)
  }

  /** The first `<relay>` node of a subtree, in document order. */
  function FindRelay(n: Node): (r: Option<Node>)
    decreases n, 1
  {
    if n.tag == "relay" then Some(n)
    else match n.content
      case Nodes(ns) => FindRelayAmong(n, ns)
      case _ => None
  }

  function FindRelayAmong(parent: Node, ns: seq<Node>): (r: Option<Node>)
    requires forall k :: 0 <= k < |ns| ==> ns[k] < parent
    decreases parent, 0, |ns|
  {
    if |ns| == 0 then None
    else
      var r := FindRelay(ns[0]);
      if r.Some? then r else FindRelayAmong(parent, ns[1..])
  }

  // ----- the relay search, by paths -----

  /** The node at a path of child positions. */
  function NodeAt(n: Node, path: seq<nat>): (r: Option<Node>)
    decreases |path|
  {
    if |path| == 0 then Some(n)
    else if path[0] < |ChildNodes(n)| then NodeAt(ChildNodes(n)[path[0]], path[1..])
    else None
  }

  /** Document order of paths: a node before its children, children left to right. */
  predicate Before(p: seq<nat>, q: seq<nat>)
    decreases |p|
  {
    if |q| == 0 then false
    else if |p| == 0 then true
    else p[0] < q[0] || (p[0] == q[0] && Before(p[1..], q[1..]))
  }

  /** It is an order: of two different paths exactly one comes first. */
  lemma {:induction false} BeforeIsTotal(p: seq<nat>, q: seq<nat>)
    ensures p == q <==> !Before(p, q) && !Before(q, p)
    ensures !(Before(p, q) && Before(q, p))
    decreases |p|
  {
    if |p| > 0 && |q| > 0 {
      BeforeIsTotal(p[1..], q[1..]);
      assert p == [p[0]] + p[1..] && q == [q[0]] + q[1..];
    }
  }

  predicate RelayAt(n: Node, path: seq<nat>) { NodeAt(n, path).Some? && NodeAt(n, path).value.tag == "relay" }

  lemma {:induction false} SearchSkips(parent: Node, ns: seq<Node>, k: nat)
    requires forall j :: 0 <= j < |ns| ==> ns[j] < parent
    requires k <= |ns| && forall j :: 0 <= j < k ==> FindRelay(ns[j]).None?
    ensures FindRelayAmong(parent, ns) == if k < |ns| && FindRelay(ns[k]).Some? then FindRelay(ns[k])
                                          else FindRelayAmong(parent, ns[k..])
    decreases |ns|
  {
    hide FindRelay;
    if k == 0 {
      assert ns[0..] == ns;
    } else {
      assert ns[1..][k - 1..] == ns[k..];
      SearchSkips(parent, ns[1..], k - 1);
    }
  }

  lemma {:induction false} SearchStops(parent: Node, ns: seq<Node>) returns (k: nat)
    requires forall j :: 0 <= j < |ns| ==> ns[j] < parent
    ensures k <= |ns| && (forall j :: 0 <= j < k ==> FindRelay(ns[j]).None?)
    ensures FindRelayAmong(parent, ns).None? <==> k == |ns|
    ensures k < |ns| ==> FindRelay(ns[k]).Some? && FindRelayAmong(parent, ns) == FindRelay(ns[k])
    decreases |ns|
  {
    hide FindRelay;
    k := 0;
    if |ns| > 0 && FindRelay(ns[0]).None? {
      var i := SearchStops(parent, ns[1..]);
      k := i + 1;
    }
  }

  /** If the search finds nothing, there is no relay at any path. */
  lemma {:induction false} NothingMissed(n: Node, path: seq<nat>)
    requires FindRelay(n).None?
    ensures !RelayAt(n, path)
    decreases |path|
  {
    if |path| > 0 && path[0] < |ChildNodes(n)| {
      var k := SearchStops(n, n.content.nodes);
      NothingMissed(ChildNodes(n)[path[0]], path[1..]);
    }
  }

  /** What the search finds is a relay, and no other stands before it. */
  lemma {:induction false} FoundAt(n: Node) returns (path: seq<nat>)
    requires FindRelay(n).Some?
    ensures RelayAt(n, path) && NodeAt(n, path) == FindRelay(n)
    ensures forall q :: Before(q, path) ==> !RelayAt(n, q)
    decreases n
  {
    if n.tag == "relay" {
      path := [];
    } else {
      var ns := n.content.nodes;
      var k := SearchStops(n, ns);
      var rest := FoundAt(ns[k]);
      path := [k] + rest;
      assert path[1..] == rest;
      forall q | Before(q, path)
        ensures !RelayAt(n, q)
      {
        if |q| > 0 {
          if q[0] < k { NothingMissed(ns[q[0]], q[1..]); } else { assert !RelayAt(ns[k], q[1..]); }
        }
      }
    }
  }

  /** A relay is found exactly if one stands anywhere in the tree, and it is the first
      in document order. */
  lemma FindRelayIsFirst(n: Node)
    ensures FindRelay(n).Some? <==> exists path :: RelayAt(n, path)
    ensures FindRelay(n).Some? ==>
              exists path :: RelayAt(n, path) && NodeAt(n, path) == FindRelay(n)
                             && forall q :: Before(q, path) ==> !RelayAt(n, q)
  {
    hide FindRelay, RelayAt, Before;
    if FindRelay(n).Some? {
      var path := FoundAt(n);
    } else {
      forall path
        ensures !RelayAt(n, path)
      {
        NothingMissed(n, path);
      }
    }
  }

  function Rates(audio: seq<Node>): (r: seq<u32>) {
    if |audio| == 0 then []
    else (match U32Attr(audio[0], "rate") case None => [] case Some(v) => [v]) + Rates(audio[1..])
  }

  function ParseOffer(call: Node, ownLid: string): (r: Option<ParsedOffer>) {
    if call.tag != "call" then None
    else match Child(call, "offer")
      case None => None
      case Some(offer) =>
        var callId, creator, enc := Attr(offer, "call-id"), Attr(offer, "call-creator"), EncForDevice(offer, ownLid);
        if callId.None? || creator.None? || enc.None? then None
        else
          Some(ParsedOffer(
                 callId.value, creator.value,
                 match Attr(call, "from") case None => "" case Some(f) => f,
                 Child(offer, "video").Some?,
                 Rates(Children(offer, "audio")),
                 enc.value,
                 match FindRelay(call) case None => None case Some(n) => Some(RelayDataOf(n)),
                 match Child(offer, "capability")
                 case None => false
                 case Some(n) => (match NodeBytes(n) case None => false case Some(b) => WantsMlow(b))))
  }

  // ----- building -----

  function EncNode(d: DeviceKey): (n: Node) {
    Node("enc", map["v" := "2", "type" := d.encType, "count" := "0"], Data(d.ciphertext))
  }

  function ToNode(d: DeviceKey): (n: Node) { Node("to", map["jid" := d.deviceJid], Nodes([EncNode(d)])) }

  function ToNodes(ds: seq<DeviceKey>): (ns: seq<Node>)
    ensures |ns| == |ds|
  {
    if |ds| == 0 then [] else [ToNode(ds[0])] + ToNodes(ds[1..])
  }

  predicate Addressed(ds: seq<DeviceKey>, multiDevice: bool) { multiDevice || |ds| > 1 }

  function KeyNodes(ds: seq<DeviceKey>, multiDevice: bool): (ns: seq<Node>) {
    if Addressed(ds, multiDevice) then [Node("destination", map[], Nodes(ToNodes(ds)))]
    else if |ds| > 0 then [EncNode(ds[0])]
    else []
  }

  predicate AnyPkmsg(ds: seq<DeviceKey>) { exists k :: 0 <= k < |ds| && ds[k].encType == "pkmsg" }

  function PrivacyNodes(token: Option<seq<byte>>): (ns: seq<Node>) {
    match token case None => [] case Some(t) => [Node("privacy", map[], Data(t))]
  }

  function IdentityNodes(ds: seq<DeviceKey>, identity: Option<seq<byte>>): (ns: seq<Node>) {
    match identity
    case Some(di) => if AnyPkmsg(ds) then [Node("device-identity", map[], Data(di))] else []
    case None => []
  }

  function FixedNodes(rate: string): (ns: seq<Node>) {
    [Node("audio", map["enc" := "opus", "rate" := rate], Empty),
     Node("net", map["medium" := "3"], Empty),
     Node("capability", map["ver" := "1"], Data(CAPABILITY_STANDARD_OPUS))]
  }

  function OfferChildren(
    rate: string, token: Option<seq<byte>>, ds: seq<DeviceKey>, multiDevice: bool, identity: Option<seq<byte>>)
    : (ns: seq<Node>)
  {
    PrivacyNodes(token) + FixedNodes(rate) + KeyNodes(ds, multiDevice)
    + [Node("encopt", map["keygen" := "2"], Empty)] + IdentityNodes(ds, identity)
  }

  function BuildOffer(
    callId: string, to: string, creator: string, wrapperId: string, rate: string, token: Option<seq<byte>>,
    ds: seq<DeviceKey>, multiDevice: bool, identity: Option<seq<byte>>)
    : (call: Node)
  {
    Node("call", map["to" := to, "id" := wrapperId],
         Nodes([Node("offer", map["call-id" := callId, "call-creator" := creator],
                     Nodes(OfferChildren(rate, token, ds, multiDevice, identity)))]))
  }

  // ----- round trip -----

  /** The key meant for a device: in the addressed shape the first one with its
      JID, in the bare shape the only one there is. */
  function KeyFor(ds: seq<DeviceKey>, multiDevice: bool, jid: string): (r: Option<DeviceKey>) {
    if Addressed(ds, multiDevice) then FirstWithJid(ds, jid)
    else if |ds| > 0 then Some(ds[0]) else None
  }

  function FirstWithJid(ds: seq<DeviceKey>, jid: string): (r: Option<DeviceKey>) {
    if |ds| == 0 then None else if ds[0].deviceJid == jid then Some(ds[0]) else FirstWithJid(ds[1..], jid)
  }

  predicate Has(ns: seq<Node>, tag: string) { exists k :: 0 <= k < |ns| && ns[k].tag == tag }

  lemma {:induction false} FirstSkips(xs: seq<Node>, ys: seq<Node>, tag: string)
    requires !Has(xs, tag)
    ensures FirstTagged(xs + ys, tag) == FirstTagged(ys, tag) && AllTagged(xs + ys, tag) == AllTagged(ys, tag)
  {
    if |xs| == 0 {
      assert xs + ys == ys;
    } else {
      assert xs[0].tag != tag;
      assert (xs + ys)[1..] == xs[1..] + ys;
      assert !Has(xs[1..], tag);
      FirstSkips(xs[1..], ys, tag);
    }
  }

  lemma {:induction false} NoneTagged(xs: seq<Node>, tag: string)
    requires !Has(xs, tag)
    ensures FirstTagged(xs, tag) == None && AllTagged(xs, tag) == []
  {
    FirstSkips(xs, [], tag);
    assert xs + [] == xs;
  }

  lemma EncNodeParses(d: DeviceKey)
    ensures ParseEnc(EncNode(d)) == if d.ciphertext == [] then None else Some(OfferEnc(d.encType, 2, d.ciphertext))
  {
    assert ParseUint("2", U32_MAX) == Some(2) by {
      assert "2" == Decimal(2);
      DecimalRoundTrip(2, U32_MAX);
    }
  }

  lemma {:induction false} EncAmongTos(ds: seq<DeviceKey>, jid: string)
    ensures AllTagged(ToNodes(ds), "to") == ToNodes(ds)
    ensures EncAmong(ToNodes(ds), jid)
         == match FirstWithJid(ds, jid) case None => None case Some(d) => ParseEnc(EncNode(d))
  {
    hide ParseEnc, EncNode;
    if |ds| > 0 {
      EncAmongTos(ds[1..], jid);
      var ns := ToNodes(ds);
      assert ns[0] == ToNode(ds[0]) && ns[1..] == ToNodes(ds[1..]);
      assert Child(ns[0], "enc") == Some(EncNode(ds[0])) by { EncIsEnc(ds[0]); }
    }
  }

  lemma EncIsEnc(d: DeviceKey)
    ensures Child(ToNode(d), "enc") == Some(EncNode(d))
  {}

  lemma {:induction false} NoRelayAmong(parent: Node, ns: seq<Node>)
    requires forall k :: 0 <= k < |ns| ==> ns[k] < parent && FindRelay(ns[k]) == None
    ensures FindRelayAmong(parent, ns) == None
    decreases |ns|
  {
    hide FindRelay;
    if |ns| > 0 { NoRelayAmong(parent, ns[1..]); }
  }

  lemma {:induction false} ToNodesAre(ds: seq<DeviceKey>, k: nat)
    requires k < |ds|
    ensures ToNodes(ds)[k] == ToNode(ds[k])
    decreases |ds|
  {
    if k > 0 { ToNodesAre(ds[1..], k - 1); }
  }

  lemma NoRelayInTo(d: DeviceKey)
    ensures FindRelay(ToNode(d)) == None && FindRelay(EncNode(d)) == None
  {
    var n := ToNode(d);
    NoRelayAmong(n, n.content.nodes);
  }

  lemma NoRelayInKeys(ds: seq<DeviceKey>, multiDevice: bool, k: nat)
    requires k < |KeyNodes(ds, multiDevice)|
    ensures FindRelay(KeyNodes(ds, multiDevice)[k]) == None
  {
    var n := KeyNodes(ds, multiDevice)[k];
    if Addressed(ds, multiDevice) {
      forall j | 0 <= j < |ds|
        ensures FindRelay(n.content.nodes[j]) == None
      {
        ToNodesAre(ds, j);
        NoRelayInTo(ds[j]);
      }
      NoRelayAmong(n, n.content.nodes);
    } else {
      NoRelayInTo(ds[0]);
    }
  }

  lemma NoRelayInOffer(
    callId: string, to: string, creator: string, wrapperId: string, rate: string, token: Option<seq<byte>>,
    ds: seq<DeviceKey>, multiDevice: bool, identity: Option<seq<byte>>)
    ensures FindRelay(BuildOffer(callId, to, creator, wrapperId, rate, token, ds, multiDevice, identity)) == None
  {
    var call := BuildOffer(callId, to, creator, wrapperId, rate, token, ds, multiDevice, identity);
    var offer := call.content.nodes[0];
    var a, b, c := PrivacyNodes(token), FixedNodes(rate), KeyNodes(ds, multiDevice);
    var ns := OfferChildren(rate, token, ds, multiDevice, identity);
    forall k | 0 <= k < |ns|
      ensures FindRelay(ns[k]) == None
    {
      if |a| + |b| <= k < |a| + |b| + |c| {
        NoRelayInKeys(ds, multiDevice, k - |a| - |b|);
      }
    }
    NoRelayAmong(offer, ns);
    NoRelayAmong(call, [offer]);
  }

  /** What the parser's lookups find among the children of a built offer. */
  lemma OfferLookups(
    rate: string, token: Option<seq<byte>>, ds: seq<DeviceKey>, multiDevice: bool, identity: Option<seq<byte>>)
    ensures var ns := OfferChildren(rate, token, ds, multiDevice, identity);
            var fixed := FixedNodes(rate);
            && FirstTagged(ns, "video") == None
            && FirstTagged(ns, "capability") == Some(fixed[2])
            && AllTagged(ns, "audio") == [fixed[0]]
            && FirstTagged(ns, "enc") == FirstTagged(KeyNodes(ds, multiDevice), "enc")
            && FirstTagged(ns, "destination") == FirstTagged(KeyNodes(ds, multiDevice), "destination")
  {
    hide FirstTagged, AllTagged, Has, PrivacyNodes, IdentityNodes, FixedNodes, KeyNodes;
    var a, b, c := PrivacyNodes(token), FixedNodes(rate), KeyNodes(ds, multiDevice);
    var d := [Node("encopt", map["keygen" := "2"], Empty)] + IdentityNodes(ds, identity);
    var ns := OfferChildren(rate, token, ds, multiDevice, identity);
    OtherTags(rate, token, ds, multiDevice, identity);
    assert ns == a + (b + (c + d)) && ns == (a + b) + (c + d);
    SkipAll(a, b, c, d, "video");
    FirstSkips(a, b + (c + d), "capability");
    FirstSkips(a, b + (c + d), "audio");
    FixedLookups(rate, c + d);
    KeyLookup(a + b, c, d, "enc");
    KeyLookup(a + b, c, d, "destination");
  }

  lemma OtherTags(
    rate: string, token: Option<seq<byte>>, ds: seq<DeviceKey>, multiDevice: bool, identity: Option<seq<byte>>)
    ensures var a, b, c := PrivacyNodes(token), FixedNodes(rate), KeyNodes(ds, multiDevice);
            var d := [Node("encopt", map["keygen" := "2"], Empty)] + IdentityNodes(ds, identity);
            && |c| <= 1
            && !Has(a, "capability") && !Has(a, "audio") && !Has(c + d, "audio")
            && !Has(a, "video") && !Has(b, "video") && !Has(c, "video") && !Has(d, "video")
            && !Has(a + b, "enc") && !Has(d, "enc") && !Has(a + b, "destination") && !Has(d, "destination")
  {}

  lemma SkipAll(a: seq<Node>, b: seq<Node>, c: seq<Node>, d: seq<Node>, tag: string)
    requires !Has(a, tag) && !Has(b, tag) && !Has(c, tag) && !Has(d, tag)
    ensures FirstTagged(a + (b + (c + d)), tag) == None
  {
    hide FirstTagged, Has;
    FirstSkips(a, b + (c + d), tag);
    FirstSkips(b, c + d, tag);
    FirstSkips(c, d, tag);
    NoneTagged(d, tag);
  }

  lemma FixedLookups(rate: string, rest: seq<Node>)
    requires !Has(rest, "audio")
    ensures FirstTagged(FixedNodes(rate) + rest, "capability") == Some(FixedNodes(rate)[2])
    ensures AllTagged(FixedNodes(rate) + rest, "audio") == [FixedNodes(rate)[0]]
  {
    var b := FixedNodes(rate);
    assert b + rest == b[..2] + (b[2..] + rest);
    FirstSkips(b[..2], b[2..] + rest, "capability");
    AudioOnce(b, rest);
  }

  lemma AudioOnce(b: seq<Node>, rest: seq<Node>)
    requires |b| == 3 && b[0].tag == "audio" && !Has(b[1..], "audio") && !Has(rest, "audio")
    ensures AllTagged(b + rest, "audio") == [b[0]]
  {
    assert (b + rest)[1..] == b[1..] + rest;
    FirstSkips(b[1..], rest, "audio");
    NoneTagged(rest, "audio");
  }

  lemma KeyLookup(before: seq<Node>, keys: seq<Node>, after: seq<Node>, tag: string)
    requires |keys| <= 1 && !Has(before, tag) && !Has(after, tag)
    ensures FirstTagged(before + (keys + after), tag) == FirstTagged(keys, tag)
  {
    FirstSkips(before, keys + after, tag);
    NoneTagged(after, tag);
    if |keys| == 1 {
      assert (keys + after)[1..] == after && keys[1..] == [];
    } else {
      assert keys + after == after;
    }
  }

  lemma EncForDeviceFinds(
    n: Node, rate: string, token: Option<seq<byte>>, ds: seq<DeviceKey>, multiDevice: bool,
    identity: Option<seq<byte>>, jid: string)
    requires n.content == Nodes(OfferChildren(rate, token, ds, multiDevice, identity))
    ensures EncForDevice(n, jid)
         == match KeyFor(ds, multiDevice, jid) case None => None case Some(d) => ParseEnc(EncNode(d))
  {
    hide ParseEnc, OfferChildren, EncAmong;
    OfferLookups(rate, token, ds, multiDevice, identity);
    EncAmongTos(ds, jid);
    var keys := KeyNodes(ds, multiDevice);
    if |keys| == 1 {
      assert keys[1..] == [];
      assert FirstTagged(keys[1..], "enc") == None && FirstTagged(keys[1..], "destination") == None;
    }
  }

  function RateOf(rate: string): (r: seq<u32>) {
    match ParseUint(rate, U32_MAX) case None => [] case Some(v) => [v]
  }

  /** Parsing what was built, for any arguments and any device: the device's own
      key, call id, creator and rate come back; an offer with no key for it, or an
      empty one, is refused. */
  lemma OfferRoundTrip(
    callId: string, to: string, creator: string, wrapperId: string, rate: string, token: Option<seq<byte>>,
    ds: seq<DeviceKey>, multiDevice: bool, identity: Option<seq<byte>>, jid: string)
    ensures ParseOffer(BuildOffer(callId, to, creator, wrapperId, rate, token, ds, multiDevice, identity), jid)
         == match KeyFor(ds, multiDevice, jid)
            case None => None
            case Some(d) =>
              if d.ciphertext == [] then None
              else
                Some(ParsedOffer(callId, creator, "", false, RateOf(rate),
                                 OfferEnc(d.encType, 2, d.ciphertext), None, false))
  {
    hide EncForDevice, OfferChildren, FindRelay, ParseEnc, EncNode, KeyFor, FirstTagged, AllTagged, Rates, RateOf;
    var call := BuildOffer(callId, to, creator, wrapperId, rate, token, ds, multiDevice, identity);
    var offer := call.content.nodes[0];
    OfferLookups(rate, token, ds, multiDevice, identity);
    EncForDeviceFinds(offer, rate, token, ds, multiDevice, identity, jid);
    NoRelayInOffer(callId, to, creator, wrapperId, rate, token, ds, multiDevice, identity);
    assert Child(call, "offer") == Some(offer) by { OnlyChild(call, offer); }
    assert Rates([FixedNodes(rate)[0]]) == RateOf(rate) by { OneRate(rate); }
    match KeyFor(ds, multiDevice, jid)
    case None =>
    case Some(d) => EncNodeParses(d);
  }

  lemma OnlyChild(n: Node, c: Node)
    requires n.content == Nodes([c])
    ensures Child(n, c.tag) == Some(c)
  {}

  lemma OneRate(rate: string)
    ensures Rates([FixedNodes(rate)[0]]) == RateOf(rate)
  {
    var n := FixedNodes(rate)[0];
    assert [n][1..] == [];
    assert Attr(n, "rate") == Some(rate);
  }

  /** Each of several devices with distinct JIDs gets its own key out. */
  lemma EveryDeviceRecoversItsKey(
    callId: string, to: string, creator: string, wrapperId: string, rate: u32, token: Option<seq<byte>>,
    ds: seq<DeviceKey>, multiDevice: bool, identity: Option<seq<byte>>, k: nat)
    requires k < |ds| && ds[k].ciphertext != []
    requires forall i, j :: 0 <= i < j < |ds| ==> ds[i].deviceJid != ds[j].deviceJid
    ensures ParseOffer(BuildOffer(callId, to, creator, wrapperId, Decimal(rate), token, ds, multiDevice, identity),
                       ds[k].deviceJid)
         == Some(ParsedOffer(callId, creator, "", false, [rate],
                             OfferEnc(ds[k].encType, 2, ds[k].ciphertext), None, false))
  {
    hide ParseOffer, BuildOffer;
    OfferRoundTrip(callId, to, creator, wrapperId, Decimal(rate), token, ds, multiDevice, identity, ds[k].deviceJid);
    FirstIsUnique(ds, k);
    DecimalRoundTrip(rate, U32_MAX);
  }

  lemma {:induction false} FirstIsUnique(ds: seq<DeviceKey>, k: nat)
    requires k < |ds| && forall i, j :: 0 <= i < j < |ds| ==> ds[i].deviceJid != ds[j].deviceJid
    ensures FirstWithJid(ds, ds[k].deviceJid) == Some(ds[k])
    decreases |ds|
  {
    if k > 0 {
      assert ds[1..][k - 1] == ds[k] && ds[0].deviceJid != ds[k].deviceJid;
      FirstIsUnique(ds[1..], k - 1);
    }
  }

  // ----- the offer as the server reads it -----

  /** The place the server insists on for each child of an offer. */
  function Place(tag: string): (p: nat) {
    if tag == "privacy" then 0 else if tag == "audio" then 1 else if tag == "net" then 2
    else if tag == "capability" then 3 else if tag == "destination" then 4 else if tag == "enc" then 5
    else if tag == "encopt" then 6 else if tag == "device-identity" then 7 else 8
  }

  predicate InPlace(ns: seq<Node>) {
    && (forall k :: 0 <= k < |ns| ==> Place(ns[k].tag) < 8)
    && (forall i, j :: 0 <= i < j < |ns| ==> Place(ns[i].tag) < Place(ns[j].tag))
  }

  lemma InPlaceConcat(xs: seq<Node>, ys: seq<Node>, at: nat)
    requires InPlace(xs) && InPlace(ys)
    requires forall k :: 0 <= k < |xs| ==> Place(xs[k].tag) < at
    requires forall k :: 0 <= k < |ys| ==> at <= Place(ys[k].tag)
    ensures InPlace(xs + ys)
  {
    hide Place;
  }

  /** The children of an offer stand in that order, each kind at most once. */
  lemma OfferInPlace(
    rate: string, token: Option<seq<byte>>, ds: seq<DeviceKey>, multiDevice: bool, identity: Option<seq<byte>>)
    ensures InPlace(OfferChildren(rate, token, ds, multiDevice, identity))
  {
    hide AnyPkmsg, ToNodes, EncNode;
    var a, b, c := PrivacyNodes(token), FixedNodes(rate), KeyNodes(ds, multiDevice);
    var e, f := [Node("encopt", map["keygen" := "2"], Empty)], IdentityNodes(ds, identity);
    assert InPlace(a) && InPlace(b) && InPlace(e) && InPlace(f);
    KeyTags(ds, multiDevice);
    assert InPlace(c);
    hide InPlace, Place, PrivacyNodes, FixedNodes, KeyNodes, IdentityNodes;
    PartPlaces(rate, token, ds, multiDevice, identity);
    InPlaceConcat(a, b, 1);
    InPlaceConcat(a + b, c, 4);
    InPlaceConcat(a + b + c, e, 6);
    InPlaceConcat(a + b + c + e, f, 7);
  }

  lemma KeyTags(ds: seq<DeviceKey>, multiDevice: bool)
    ensures var c := KeyNodes(ds, multiDevice);
            |c| <= 1 && forall k :: 0 <= k < |c| ==> c[k].tag == "destination" || c[k].tag == "enc"
  {}

  predicate Between(ns: seq<Node>, lo: nat, hi: nat) { forall k :: 0 <= k < |ns| ==> lo <= Place(ns[k].tag) < hi }

  lemma PartPlaces(
    rate: string, token: Option<seq<byte>>, ds: seq<DeviceKey>, multiDevice: bool, identity: Option<seq<byte>>)
    ensures Between(PrivacyNodes(token), 0, 1) && Between(FixedNodes(rate), 1, 4)
    ensures Between(KeyNodes(ds, multiDevice), 4, 6)
    ensures Between([Node("encopt", map["keygen" := "2"], Empty)], 6, 7) && Between(IdentityNodes(ds, identity), 7, 8)
  {
    hide AnyPkmsg, ToNodes;
    KeyTags(ds, multiDevice);
  }

  lemma InPlaceLookup(ns: seq<Node>, k: nat)
    requires InPlace(ns) && k < |ns|
    ensures FirstTagged(ns, ns[k].tag) == Some(ns[k])
  {
    hide Place;
    var r := FirstTagged(ns, ns[k].tag);
    assert r.Some?;
    var j :| 0 <= j < |ns| && ns[j] == r.value;
  }

  lemma InPlaceEnds(ns: seq<Node>, tag: string)
    requires InPlace(ns) && |ns| > 0 && (Place(tag) < Place(ns[0].tag) || Place(tag) > Place(ns[|ns| - 1].tag))
    ensures FirstTagged(ns, tag) == None
  {
    hide Place;
  }

  /** What each part of a built offer says: recipient and ids, and the attributes and
      content of the children, as they are looked up by tag and name. */
  lemma OfferStanza(
    callId: string, to: string, creator: string, wrapperId: string, rate: string, token: Option<seq<byte>>,
    ds: seq<DeviceKey>, multiDevice: bool, identity: Option<seq<byte>>)
    ensures var call := BuildOffer(callId, to, creator, wrapperId, rate, token, ds, multiDevice, identity);
            && call.tag == "call" && call.attrs == map["to" := to, "id" := wrapperId] && |ChildNodes(call)| == 1
            && var offer := ChildNodes(call)[0];
               && offer.tag == "offer" && offer.attrs == map["call-id" := callId, "call-creator" := creator]
               && Says(offer, rate, token, ds, identity) && Carries(offer, ds, multiDevice)
  {
    hide Says, Carries;
    ChildrenSay(Node("offer", map["call-id" := callId, "call-creator" := creator],
                     Nodes(OfferChildren(rate, token, ds, multiDevice, identity))),
                rate, token, ds, multiDevice, identity);
  }

  predicate Says(offer: Node, rate: string, token: Option<seq<byte>>, ds: seq<DeviceKey>, identity: Option<seq<byte>>) {
    && Child(offer, "audio") == Some(Node("audio", map["enc" := "opus", "rate" := rate], Empty))
    && Child(offer, "net") == Some(Node("net", map["medium" := "3"], Empty))
    && Child(offer, "capability")
       == Some(Node("capability", map["ver" := "1"], Data([0x01, 0x05, 0xf7, 0x09, 0xe0, 0x3b, 0x13])))
    && Child(offer, "encopt") == Some(Node("encopt", map["keygen" := "2"], Empty))
    && Child(offer, "privacy") == (if token.Some? then Some(Node("privacy", map[], Data(token.value))) else None)
    && Child(offer, "device-identity")
       == (if identity.Some? && (exists k :: 0 <= k < |ds| && ds[k].encType == "pkmsg")
           then Some(Node("device-identity", map[], Data(identity.value))) else None)
  }

  /** One key stands bare, if the peer has one device only; several, or any for a peer
      with several, stand each under its device's address. */
  predicate Carries(offer: Node, ds: seq<DeviceKey>, multiDevice: bool) {
    if multiDevice || |ds| > 1 then
      && Child(offer, "enc").None? && Child(offer, "destination").Some?
      && var dest := Child(offer, "destination").value;
         && dest.attrs == map[] && |ChildNodes(dest)| == |ds|
         && forall k :: 0 <= k < |ds| ==>
              ChildNodes(dest)[k] == Node("to", map["jid" := ds[k].deviceJid], Nodes([SealedKey(ds[k])]))
    else
      && Child(offer, "destination").None?
      && Child(offer, "enc") == if |ds| == 1 then Some(SealedKey(ds[0])) else None
  }

  function SealedKey(d: DeviceKey): (n: Node) {
    Node("enc", map["v" := "2", "type" := d.encType, "count" := "0"], Data(d.ciphertext))
  }

  lemma KeysCarried(
    offer: Node, rate: string, token: Option<seq<byte>>, ds: seq<DeviceKey>, multiDevice: bool,
    identity: Option<seq<byte>>)
    requires offer.content == Nodes(OfferChildren(rate, token, ds, multiDevice, identity))
    ensures Carries(offer, ds, multiDevice)
  {
    hide OfferChildren, FirstTagged;
    OfferLookups(rate, token, ds, multiDevice, identity);
    var keys := KeyNodes(ds, multiDevice);
    var own := if Addressed(ds, multiDevice) then "destination" else "enc";
    LookupUniform(keys, own, "enc");
    LookupUniform(keys, own, "destination");
    forall k | 0 <= k < |ds|
      ensures ToNodes(ds)[k] == ToNode(ds[k])
    {
      ToNodesAre(ds, k);
    }
  }

  lemma ChildrenSay(
    offer: Node, rate: string, token: Option<seq<byte>>, ds: seq<DeviceKey>, multiDevice: bool,
    identity: Option<seq<byte>>)
    requires offer.content == Nodes(OfferChildren(rate, token, ds, multiDevice, identity))
    ensures Says(offer, rate, token, ds, identity) && Carries(offer, ds, multiDevice)
  {
    hide Addressed, ToNodes, EncNode, KeyNodes, FirstTagged, InPlace, Carries;
    KeysCarried(offer, rate, token, ds, multiDevice, identity);
    var ns := OfferChildren(rate, token, ds, multiDevice, identity);
    OfferInPlace(rate, token, ds, multiDevice, identity);
    KeyTags(ds, multiDevice);
    var p, k := |PrivacyNodes(token)|, |KeyNodes(ds, multiDevice)|;
    InPlaceLookup(ns, p);
    InPlaceLookup(ns, p + 1);
    InPlaceLookup(ns, p + 2);
    InPlaceLookup(ns, p + 3 + k);
    if p == 1 { InPlaceLookup(ns, 0); } else { InPlaceEnds(ns, "privacy"); }
    if |ns| == p + 4 + k { InPlaceEnds(ns, "device-identity"); } else { InPlaceLookup(ns, p + 4 + k); }
  }

  // ----- a peer's offer -----

  /** What a peer may say in an offer; `lid` is the device an addressed key is for. */
  datatype PeerOffer = PeerOffer(
    from: Option<string>, callId: string, creator: string, video: bool, rates: seq<u32>,
    encType: Option<string>, version: Option<u32>, ciphertext: seq<byte>, lid: Option<string>,
    capability: Option<seq<byte>>, relay: Option<Node>, relayInOffer: bool)

  function Put(m: map<string, string>, name: string, o: Option<string>): (r: map<string, string>) {
    if o.Some? then m[name := o.value] else m
  }

  function Written(o: Option<u32>): (r: Option<string>) { if o.Some? then Some(Decimal(o.value)) else None }

  function AudioNodes(rates: seq<u32>): (ns: seq<Node>)
    ensures Uniform(ns, "audio") && |ns| == |rates|
  {
    seq(|rates|, k requires 0 <= k < |rates| => Node("audio", map["enc" := "opus", "rate" := Decimal(rates[k])], Empty))
  }

  function PeerEnc(p: PeerOffer): (n: Node) {
    Node("enc", Put(Put(map[], "type", p.encType), "v", Written(p.version)), Data(p.ciphertext))
  }

  function PeerKey(p: PeerOffer): (n: Node) {
    if p.lid.None? then PeerEnc(p)
    else Node("destination", map[], Nodes([Node("to", map["jid" := p.lid.value], Nodes([PeerEnc(p)]))]))
  }

  function CapabilityNodes(c: Option<seq<byte>>): (ns: seq<Node>) {
    if c.Some? then [Node("capability", map["ver" := "1"], Data(c.value))] else []
  }

  function RelayNodes(r: Option<Node>, here: bool): (ns: seq<Node>) { if r.Some? && here then [r.value] else [] }

  function VideoNodes(video: bool): (ns: seq<Node>) { if video then [Node("video", map[], Empty)] else [] }

  function PeerChildren(p: PeerOffer): (ns: seq<Node>) {
    AudioNodes(p.rates) + (VideoNodes(p.video) + (CapabilityNodes(p.capability)
    + ([PeerKey(p)] + RelayNodes(p.relay, p.relayInOffer))))
  }

  function PeerNode(p: PeerOffer): (offer: Node) {
    Node("offer", map["call-id" := p.callId, "call-creator" := p.creator], Nodes(PeerChildren(p)))
  }

  function PeerCall(p: PeerOffer): (call: Node) {
    Node("call", Put(map[], "from", p.from), Nodes([PeerNode(p)] + RelayNodes(p.relay, !p.relayInOffer)))
  }

  ghost predicate IsRelay(r: Option<Node>) { r.Some? ==> r.value.tag == "relay" }

  lemma PeerLookup(p: PeerOffer, tag: string)
    requires IsRelay(p.relay)
    ensures var key := if p.lid.None? then "enc" else "destination";
            FirstTagged(PeerChildren(p), tag)
            == if tag == "audio" && |p.rates| > 0 then Some(AudioNodes(p.rates)[0])
               else if tag == "video" && p.video then Some(VideoNodes(true)[0])
               else if tag == "capability" && p.capability.Some? then Some(CapabilityNodes(p.capability)[0])
               else if tag == key then Some(PeerKey(p))
               else if tag == "relay" && p.relayInOffer then p.relay
               else None
    ensures tag == "audio" ==> AllTagged(PeerChildren(p), tag) == AudioNodes(p.rates)
  {
    hide FirstTagged, AllTagged, AudioNodes;
    var a, b, c, d, e := AudioNodes(p.rates), VideoNodes(p.video), CapabilityNodes(p.capability), [PeerKey(p)],
                         RelayNodes(p.relay, p.relayInOffer);
    var key := if p.lid.None? then "enc" else "destination";
    LookupUniform(a, "audio", tag);
    LookupUniform(b, "video", tag);
    LookupUniform(c, "capability", tag);
    LookupUniform(d, key, tag);
    LookupUniform(e, "relay", tag);
    FirstOfConcat(d, e, tag);
    FirstOfConcat(c, d + e, tag);
    FirstOfConcat(b, c + (d + e), tag);
    FirstOfConcat(a, b + (c + (d + e)), tag);
    AllOfConcat(d, e, tag);
    AllOfConcat(c, d + e, tag);
    AllOfConcat(b, c + (d + e), tag);
    AllOfConcat(a, b + (c + (d + e)), tag);
  }

  lemma {:induction false} RatesRead(rates: seq<u32>)
    ensures Rates(AudioNodes(rates)) == rates
  {
    if |rates| > 0 {
      RatesRead(rates[1..]);
      var ns := AudioNodes(rates);
      assert ns[1..] == AudioNodes(rates[1..]);
      assert Attr(ns[0], "rate") == Some(Decimal(rates[0]));
      DecimalRoundTrip(rates[0], U32_MAX);
      assert [rates[0]] + rates[1..] == rates;
    }
  }

  lemma PeerEncParses(p: PeerOffer)
    ensures ParseEnc(PeerEnc(p))
         == if p.ciphertext == [] then None
            else Some(OfferEnc(if p.encType.Some? then p.encType.value else "pkmsg",
                               if p.version.Some? then p.version.value else 2, p.ciphertext))
  {
    hide Decimal, ParseUint;
    if p.version.Some? { DecimalRoundTrip(p.version.value, U32_MAX); }
  }

  lemma PeerEncFound(p: PeerOffer, ownLid: string)
    requires IsRelay(p.relay)
    ensures EncForDevice(PeerNode(p), ownLid)
         == if p.lid.None? || p.lid.value == ownLid then ParseEnc(PeerEnc(p)) else None
  {
    hide ParseEnc, PeerEnc, PeerChildren;
    PeerLookup(p, "enc");
    PeerLookup(p, "destination");
    if p.lid.Some? {
      var to := Node("to", map["jid" := p.lid.value], Nodes([PeerEnc(p)]));
      assert Child(to, "enc") == Some(PeerEnc(p)) by { EncOfPeer(p); }
      LookupUniform([to], "to", "to");
      assert Children(PeerKey(p), "to") == [to];
      assert [to][1..] == [] && EncAmong([], ownLid) == None;
    }
  }

  lemma EncOfPeer(p: PeerOffer)
    ensures FirstTagged([PeerEnc(p)], "enc") == Some(PeerEnc(p))
  {}

  lemma NoRelayInLeaf(n: Node)
    requires n.tag != "relay" && !n.content.Nodes?
    ensures FindRelay(n) == None
  {}

  lemma NoRelayInKey(p: PeerOffer)
    ensures FindRelay(PeerKey(p)) == None
  {
    NoRelayInLeaf(PeerEnc(p));
    if p.lid.Some? {
      var to := Node("to", map["jid" := p.lid.value], Nodes([PeerEnc(p)]));
      NoRelayAmong(to, to.content.nodes);
      NoRelayAmong(PeerKey(p), PeerKey(p).content.nodes);
    }
  }

  lemma PeerRelayFound(p: PeerOffer)
    requires IsRelay(p.relay)
    ensures FindRelay(PeerCall(p)) == p.relay
  {
    hide PeerKey;
    var call, offer, kids := PeerCall(p), PeerNode(p), PeerChildren(p);
    assert call.content.nodes[0] == offer;
    var n := |kids| - |RelayNodes(p.relay, p.relayInOffer)|;
    forall k | 0 <= k < n
      ensures FindRelay(kids[k]) == None
    {
      if k == n - 1 { NoRelayInKey(p); } else { NoRelayInLeaf(kids[k]); }
    }
    SearchSkips(offer, kids, n);
    assert n == |kids| ==> kids[n..] == [];
    SearchSkips(call, call.content.nodes, if FindRelay(offer).Some? then 0 else 1);
    assert call.content.nodes[0..] == call.content.nodes;
    assert p.relay.None? || p.relayInOffer ==> call.content.nodes[1..] == [];
  }

  /** Whatever a peer's offer says comes back: sender, ids, video, all audio rates, the
      key with its defaults (pkmsg, version 2), the relay from under the call or the
      offer, and the MLow gate from the top bit of the sixth capability byte. It is
      refused only if its key is empty or addressed to another device. */
  lemma PeerOfferRoundTrip(p: PeerOffer, ownLid: string)
    requires IsRelay(p.relay)
    ensures ParseOffer(PeerCall(p), ownLid)
         == if p.ciphertext == [] || (p.lid.Some? && p.lid.value != ownLid) then None
            else Some(ParsedOffer(
                        p.callId, p.creator, if p.from.Some? then p.from.value else "", p.video, p.rates,
                        OfferEnc(if p.encType.Some? then p.encType.value else "pkmsg",
                                 if p.version.Some? then p.version.value else 2, p.ciphertext),
                        if p.relay.Some? then Some(RelayDataOf(p.relay.value)) else None,
                        p.capability.Some? && |p.capability.value| > 5 && p.capability.value[5] >= 0x80))
  {
    hide EncForDevice, PeerChildren, FindRelay, ParseEnc, PeerEnc, FirstTagged, AllTagged, Rates, AudioNodes,
         RelayDataOf;
    var call, offer := PeerCall(p), PeerNode(p);
    PeerLookup(p, "video");
    PeerLookup(p, "capability");
    PeerLookup(p, "audio");
    PeerEncFound(p, ownLid);
    PeerEncParses(p);
    PeerRelayFound(p);
    RatesRead(p.rates);
    FirstOfConcat([offer], RelayNodes(p.relay, !p.relayInOffer), "offer");
    LookupUniform([offer], "offer", "offer");
  }

  /** And a tree that is no call, or has no offer in it with both ids, is refused. */
  lemma OtherStanzasRefused(n: Node, ownLid: string)
    requires n.tag != "call" || Child(n, "offer").None?
             || "call-id" !in Child(n, "offer").value.attrs || "call-creator" !in Child(n, "offer").value.attrs
    ensures ParseOffer(n, ownLid) == None
  {}
}
