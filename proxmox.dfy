/**
 * The Proxmox VE client of the LXC manager: how it turns the API's raw
 * container records and network-interface lists into normalised
 * `Container` values, how it forms its authorization header, and what the
 * start / stop / delete calls report.
 *
 * Every HTTP exchange is an input: an `Exchange<T>` says whether the
 * request could not be sent, and otherwise which status came back and
 * whether its JSON body decoded to a `T`.
 */
module Proxmox {
  import opened Wrappers
  import Format
  import SortByKey

  // ---------------------------------------------------------------------
  // Integer widths and the opaque floating-point field
  // ---------------------------------------------------------------------

  type U32 = x: int | 0 <= x < 0x1_0000_0000
  type U64 = x: int | 0 <= x < 0x1_0000_0000_0000_0000

  /** An `f64`, carried as its IEEE-754 bit pattern; the client never computes on it. */
  datatype F64 = F64(bits: bv64)

  /** `0.0`, whose IEEE-754 pattern is all zeros. */
  const ZeroF64: F64 := F64(0)

  // ---------------------------------------------------------------------
  // HTTP outcomes (reqwest is not part of this model)
  // ---------------------------------------------------------------------

  /** A response status: its numeric code and its display form, such as "404 Not Found". */
  datatype StatusCode = StatusCode(code: nat, text: string) {
    /** reqwest's `is_success`: a 2xx code. */
    predicate IsSuccess() {
      200 <= code <= 299
    }
  }

  /**
   * One request: either sending it failed (with the transport error's
   * message), or a status came back together with the outcome of decoding
   * the JSON body as a `T` (a decode error carries its message).
   */
  datatype Exchange<T> =
    | SendFailed(cause: string)
    | Answered(status: StatusCode, body: Result<T, string>)

  // ---------------------------------------------------------------------
  // The client and its authorization header
  // ---------------------------------------------------------------------

  datatype ProxmoxClient = ProxmoxClient(host: string, node: string, tokenId: string, tokenSecret: string)

  const AuthScheme: string := "PVEAPIToken="

  /** The `Authorization` header value sent with every request. */
  function AuthHeader(client: ProxmoxClient): (h: string)
    ensures AuthScheme <= h
    ensures |h| == |AuthScheme| + |client.tokenId| + 1 + |client.tokenSecret|
  {
    AuthScheme + client.tokenId + "=" + client.tokenSecret
  }

  /**
   * Reads a header of the form `PVEAPIToken=<id>=<secret>` back into its
   * token id and secret, splitting at the first `=` after the scheme.
   */
  function ParseAuthHeader(h: string): Option<(string, string)> {
    if !(AuthScheme <= h) then None
    else
      var rest := h[|AuthScheme|..];
      var k := Format.Find(rest, '=');
      if k == |rest| then None else Some((rest[..k], rest[k + 1..]))
  }

  /**
   * The header determines the token id and the secret, provided the id
   * has no `=` in it; that is the condition under which the header is
   * unambiguous (see AuthHeaderAmbiguous).
   */
  lemma AuthHeaderRoundTrip(client: ProxmoxClient)
    requires '=' !in client.tokenId
    ensures ParseAuthHeader(AuthHeader(client)) == Some((client.tokenId, client.tokenSecret))
  {
    var h := AuthHeader(client);
    var rest := h[|AuthScheme|..];
    assert rest == client.tokenId + "=" + client.tokenSecret;
    var k := Format.Find(rest, '=');
    assert rest[|client.tokenId|] == '=';
    assert forall j :: 0 <= j < |client.tokenId| ==> rest[j] == client.tokenId[j];
    assert k == |client.tokenId|;
    assert rest[..k] == client.tokenId;
    assert rest[k + 1..] == client.tokenSecret;
  }

  /** Without that condition it is not: id "a=b" with secret "c" and id "a" with secret "b=c" share a header. */
  lemma AuthHeaderAmbiguous(host: string, node: string)
    ensures AuthHeader(ProxmoxClient(host, node, "a=b", "c")) == AuthHeader(ProxmoxClient(host, node, "a", "b=c"))
    ensures ProxmoxClient(host, node, "a=b", "c") != ProxmoxClient(host, node, "a", "b=c")
  {
    assert AuthScheme + "a=b" + "=" + "c" == AuthScheme + "a" + "=" + "b=c";
  }

  // ---------------------------------------------------------------------
  // Address derivation
  // ---------------------------------------------------------------------

  datatype NetworkInterface = NetworkInterface(name: string, inet: Option<string>)

  const NoIpFound: string := "No IP found"

  /** An interface whose address may be reported: not the loopback, and carrying an `inet`. */
  predicate Qualifies(iface: NetworkInterface) {
    iface.name != "lo" && iface.inet.Some?
  }

  /** Interface `k` qualifies and no interface before it does. */
  predicate FirstQualifyingAt(ifaces: seq<NetworkInterface>, k: int) {
    0 <= k < |ifaces| && Qualifies(ifaces[k]) &&
    forall j :: 0 <= j < k ==> !Qualifies(ifaces[j])
  }

  /**
   * `inet.split('/').next()`: the part of an address before its first `/`,
   * which is the whole string when there is no `/`.
   */
  function StripCidr(inet: string): (ip: string)
    ensures ip <= inet
    ensures '/' !in ip
    ensures |ip| < |inet| ==> inet[|ip|] == '/'
  {
    var k := Format.Find(inet, '/');
    assert forall j :: 0 <= j < k ==> inet[..k][j] == inet[j];
    inet[..k]
  }

  /** The address the interface scan settles on, for an already-decoded interface list. */
  function AddressFromInterfaces(ifaces: seq<NetworkInterface>): (r: Result<string, string>)
    ensures r.Failure? ==> r.error == NoIpFound
    ensures r.Success? ==> ifaces != [] && '/' !in r.value
  {
    if ifaces == [] then Failure(NoIpFound)
    else if Qualifies(ifaces[0]) then Success(StripCidr(ifaces[0].inet.value))
    else AddressFromInterfaces(ifaces[1..])
  }

  /** The first qualifying interface decides the address. */
  lemma {:induction false} AddressIsFirstQualifying(ifaces: seq<NetworkInterface>, k: int)
    requires FirstQualifyingAt(ifaces, k)
    ensures AddressFromInterfaces(ifaces) == Success(StripCidr(ifaces[k].inet.value))
    decreases k
  {
    if k > 0 {
      assert !Qualifies(ifaces[0]);
      assert FirstQualifyingAt(ifaces[1..], k - 1) by {
        forall j | 0 <= j < k - 1 ensures !Qualifies(ifaces[1..][j]) {
          assert ifaces[1..][j] == ifaces[j + 1];
        }
      }
      AddressIsFirstQualifying(ifaces[1..], k - 1);
    }
  }

  /**
   * Both directions of the scan's outcome: an address is found exactly when
   * some interface qualifies, it then comes from the first one with its
   * CIDR suffix removed, and otherwise the error is "No IP found".
   */
  lemma {:induction false} AddressFromInterfacesSpec(ifaces: seq<NetworkInterface>)
    ensures AddressFromInterfaces(ifaces).Success? <==>
            exists k :: 0 <= k < |ifaces| && Qualifies(ifaces[k])
    ensures AddressFromInterfaces(ifaces).Success? ==>
            exists k :: FirstQualifyingAt(ifaces, k) &&
                        AddressFromInterfaces(ifaces).value == StripCidr(ifaces[k].inet.value)
    ensures AddressFromInterfaces(ifaces).Failure? ==>
            AddressFromInterfaces(ifaces).error == NoIpFound
    decreases |ifaces|
  {
    if ifaces == [] {
    } else if Qualifies(ifaces[0]) {
      assert FirstQualifyingAt(ifaces, 0);
    } else {
      var tail := ifaces[1..];
      AddressFromInterfacesSpec(tail);
      if AddressFromInterfaces(tail).Success? {
        var k :| FirstQualifyingAt(tail, k) &&
                 AddressFromInterfaces(tail).value == StripCidr(tail[k].inet.value);
        assert tail[k] == ifaces[k + 1];
        forall j | 0 <= j < k + 1 ensures !Qualifies(ifaces[j]) {
          if j > 0 { assert ifaces[j] == tail[j - 1]; }
        }
        assert FirstQualifyingAt(ifaces, k + 1);
      } else {
        forall k | 0 <= k < |ifaces| ensures !Qualifies(ifaces[k]) {
          if k > 0 { assert ifaces[k] == tail[k - 1]; }
        }
      }
    }
  }

  /** A derived address never carries a CIDR suffix. */
  lemma {:induction false} AddressHasNoSlash(ifaces: seq<NetworkInterface>)
    requires AddressFromInterfaces(ifaces).Success?
    ensures '/' !in AddressFromInterfaces(ifaces).value
    decreases |ifaces|
  {
    if !Qualifies(ifaces[0]) {
      AddressHasNoSlash(ifaces[1..]);
    }
  }

  /** The interfaces not named "lo", in order (with or without an `inet`). */
  function NonLoopback(ifaces: seq<NetworkInterface>): (r: seq<NetworkInterface>)
    ensures forall k :: 0 <= k < |r| ==> r[k].name != "lo"
    ensures |r| <= |ifaces|
  {
    if ifaces == [] then []
    else if ifaces[0].name == "lo" then NonLoopback(ifaces[1..])
    else [ifaces[0]] + NonLoopback(ifaces[1..])
  }

  /**
   * A loopback interface is never chosen, even when it has an `inet`:
   * dropping every `lo` entry leaves the outcome unchanged.
   */
  lemma {:induction false} LoopbackNeverChosen(ifaces: seq<NetworkInterface>)
    ensures AddressFromInterfaces(NonLoopback(ifaces)) == AddressFromInterfaces(ifaces)
    decreases |ifaces|
  {
    if ifaces != [] {
      LoopbackNeverChosen(ifaces[1..]);
      if ifaces[0].name != "lo" {
        var r := [ifaces[0]] + NonLoopback(ifaces[1..]);
        assert r[0] == ifaces[0] && r[1..] == NonLoopback(ifaces[1..]);
      }
    }
  }

  /**
   * Earlier interfaces win: if a prefix of the list already yields an
   * address, the rest is never looked at; if it yields none, the rest
   * alone decides.
   */
  lemma {:induction false} EarlierInterfaceWins(a: seq<NetworkInterface>, b: seq<NetworkInterface>)
    ensures AddressFromInterfaces(a + b) ==
            if AddressFromInterfaces(a).Success? then AddressFromInterfaces(a)
            else AddressFromInterfaces(b)
    decreases |a|
  {
    if a == [] {
      assert a + b == b;
    } else {
      assert (a + b)[0] == a[0];
      assert (a + b)[1..] == a[1..] + b;
      EarlierInterfaceWins(a[1..], b);
    }
  }

  /** `get_container_ip` as a function of the interfaces request and its outcome. */
  function ContainerIp(reply: Exchange<seq<NetworkInterface>>): (r: Result<string, string>)
    ensures r.Success? <==>
            reply.Answered? && reply.status.IsSuccess() && reply.body.Success? &&
            AddressFromInterfaces(reply.body.value).Success?
    ensures r.Success? ==> '/' !in r.value
  {
    match reply
    case SendFailed(cause) => Failure("Failed to fetch IP: " + cause)
    case Answered(status, body) =>
      if !status.IsSuccess() then Failure("Failed to get IP")
      else if body.Failure? then Failure("Failed to parse interfaces")
      else AddressFromInterfaces(body.value)
  }

  /**
   * `get_container_ip`: check the response, then scan the interfaces in
   * order and return at the first one that qualifies.
   */
  method GetContainerIp(reply: Exchange<seq<NetworkInterface>>) returns (r: Result<string, string>)
    ensures r == ContainerIp(reply)
  {
    if reply.SendFailed? {
      return Failure("Failed to fetch IP: " + reply.cause);
    }
    if !reply.status.IsSuccess() {
      return Failure("Failed to get IP");
    }
    if reply.body.Failure? {
      return Failure("Failed to parse interfaces");
    }
    var ifaces := reply.body.value;
    for i := 0 to |ifaces|
      invariant AddressFromInterfaces(ifaces[i..]) == AddressFromInterfaces(ifaces)
    {
      assert ifaces[i..][0] == ifaces[i] && ifaces[i..][1..] == ifaces[i + 1..];
      var iface := ifaces[i];
      if iface.name != "lo" {
        if iface.inet.Some? {
          return Success(StripCidr(iface.inet.value));
        }
      }
    }
    assert ifaces[|ifaces|..] == [];
    return Failure(NoIpFound);
  }

  // ---------------------------------------------------------------------
  // Record normalisation
  // ---------------------------------------------------------------------

  /** A container record as the `/lxc` listing decodes it: most fields may be missing. */
  datatype RawContainer = RawContainer(
    vmid: U32,
    name: Option<string>,
    status: string,
    uptime: Option<U64>,
    mem: Option<U64>,
    maxmem: Option<U64>,
    cpu: Option<F64>,
    cpus: Option<U32>,
    diskread: Option<U64>,
    diskwrite: Option<U64>)

  /** A container as the client reports it: every field filled in. */
  datatype Container = Container(
    vmid: U32,
    name: string,
    status: string,
    uptime: U64,
    memory: U64,
    maxMemory: U64,
    cpu: F64,
    cpus: U32,
    diskRead: U64,
    diskWrite: U64,
    ipAddress: Option<string>)

  const Running: string := "running"

  /** The name given to a container whose record has none: `CT-<vmid>`. */
  function DefaultName(vmid: U32): (name: string)
    ensures "CT-" <= name
    ensures Format.AllDigits(name[3..])
    ensures |name| > 3 && (|name| > 4 ==> name[3] != '0')
  {
    "CT-" + Format.Decimal(vmid)
  }

  /** The vmid can be read back from a default name, so distinct vmids get distinct names. */
  lemma DefaultNameRoundTrip(vmid: U32)
    ensures Format.ParseDecimal(DefaultName(vmid)[3..]) == vmid
  {
    assert DefaultName(vmid)[3..] == Format.Decimal(vmid);
    Format.DecimalRoundTrip(vmid);
  }

  /** Distinct vmids get distinct default names. */
  lemma DefaultNameInjective(v1: U32, v2: U32)
    requires DefaultName(v1) == DefaultName(v2)
    ensures v1 == v2
  {
    assert DefaultName(v1)[3..] == Format.Decimal(v1);
    assert DefaultName(v2)[3..] == Format.Decimal(v2);
    Format.DecimalInjective(v1, v2);
  }

  /** Builds the reported container from a raw record and the address attached to it. */
  function Normalize(ct: RawContainer, ip: Option<string>): (c: Container)
    ensures c.vmid == ct.vmid && c.status == ct.status && c.ipAddress == ip
    ensures ct.name.None? ==> "CT-" <= c.name
  {
    Container(
      vmid := ct.vmid,
      name := ct.name.GetOr(DefaultName(ct.vmid)),
      status := ct.status,
      uptime := ct.uptime.GetOr(0),
      memory := ct.mem.GetOr(0),
      maxMemory := ct.maxmem.GetOr(0),
      cpu := ct.cpu.GetOr(ZeroF64),
      cpus := ct.cpus.GetOr(1),
      diskRead := ct.diskread.GetOr(0),
      diskWrite := ct.diskwrite.GetOr(0),
      ipAddress := ip)
  }

  /**
   * Every missing field gets its default, every present field is copied,
   * and vmid, status and address are passed through.
   */
  lemma NormalizeDefaults(ct: RawContainer, ip: Option<string>)
    ensures Normalize(ct, ip).vmid == ct.vmid && Normalize(ct, ip).status == ct.status
    ensures Normalize(ct, ip).ipAddress == ip
    ensures Normalize(ct, ip).name == if ct.name.Some? then ct.name.value else DefaultName(ct.vmid)
    ensures Normalize(ct, ip).uptime == if ct.uptime.Some? then ct.uptime.value else 0
    ensures Normalize(ct, ip).memory == if ct.mem.Some? then ct.mem.value else 0
    ensures Normalize(ct, ip).maxMemory == if ct.maxmem.Some? then ct.maxmem.value else 0
    ensures Normalize(ct, ip).cpu == if ct.cpu.Some? then ct.cpu.value else ZeroF64
    ensures Normalize(ct, ip).cpus == if ct.cpus.Some? then ct.cpus.value else 1
    ensures Normalize(ct, ip).diskRead == if ct.diskread.Some? then ct.diskread.value else 0
    ensures Normalize(ct, ip).diskWrite == if ct.diskwrite.Some? then ct.diskwrite.value else 0
  {
  }

  /** The raw record that reports every field of `c`. */
  function ToRaw(c: Container): RawContainer {
    RawContainer(c.vmid, Some(c.name), c.status, Some(c.uptime), Some(c.memory), Some(c.maxMemory),
                 Some(c.cpu), Some(c.cpus), Some(c.diskRead), Some(c.diskWrite))
  }

  /** A raw record reporting every field. */
  predicate Complete(ct: RawContainer) {
    ct.name.Some? && ct.uptime.Some? && ct.mem.Some? && ct.maxmem.Some? && ct.cpu.Some? &&
    ct.cpus.Some? && ct.diskread.Some? && ct.diskwrite.Some?
  }

  /** Normalising loses nothing: a complete record survives the round trip, and so does a container. */
  lemma NormalizeRoundTrip(ct: RawContainer, c: Container)
    ensures Complete(ct) ==> ToRaw(Normalize(ct, None)) == ct
    ensures Normalize(ToRaw(c), c.ipAddress) == c
  {
  }

  /**
   * The address attached to a raw record: looked up only for a running
   * container, with any failure of the lookup turned into "no address".
   */
  function AddressFor(ct: RawContainer, interfaces: U32 -> Exchange<seq<NetworkInterface>>): (ip: Option<string>)
    ensures ct.status != Running ==> ip == None
    ensures ip.Some? ==> '/' !in ip.value
  {
    if ct.status == Running then ContainerIp(interfaces(ct.vmid)).ToOption() else None
  }

  /** The normalised records, in listing order, before sorting. */
  function NormalizeAll(raw: seq<RawContainer>, interfaces: U32 -> Exchange<seq<NetworkInterface>>): (cs: seq<Container>)
    ensures |cs| == |raw|
    ensures forall k :: 0 <= k < |cs| ==>
              cs[k].vmid == raw[k].vmid && cs[k].status == raw[k].status &&
              (cs[k].status != Running ==> cs[k].ipAddress == None)
  {
    seq(|raw|, k requires 0 <= k < |raw| => Normalize(raw[k], AddressFor(raw[k], interfaces)))
  }

  // ---------------------------------------------------------------------
  // Ordering: `sort_by_key(|c| c.vmid)`
  // ---------------------------------------------------------------------

  /** The sort key of the listing. */
  function Vmid(c: Container): int {
    c.vmid
  }

  // ---------------------------------------------------------------------
  // The container listing
  // ---------------------------------------------------------------------

  /** `get_containers` as a function of the listing request and the interfaces requests. */
  function ContainerList(reply: Exchange<seq<RawContainer>>,
                         interfaces: U32 -> Exchange<seq<NetworkInterface>>): (r: Result<seq<Container>, string>)
    ensures r.Success? <==> reply.Answered? && reply.status.IsSuccess() && reply.body.Success?
    ensures r.Success? ==> |r.value| == |reply.body.value| && SortByKey.Sorted(r.value, Vmid)
  {
    match reply
    case SendFailed(cause) => Failure("Failed to fetch containers: " + cause)
    case Answered(status, body) =>
      if !status.IsSuccess() then Failure("API error: " + status.text)
      else if body.Failure? then Failure("Failed to parse response: " + body.error)
      else
        SortByKey.SortSorted(NormalizeAll(body.value, interfaces), Vmid);
        Success(SortByKey.Sort(NormalizeAll(body.value, interfaces), Vmid))
  }

  /**
   * `get_containers`: check the listing response, normalise each record in
   * order (looking up the address of running ones), then sort by vmid.
   */
  method GetContainers(reply: Exchange<seq<RawContainer>>,
                       interfaces: U32 -> Exchange<seq<NetworkInterface>>)
    returns (r: Result<seq<Container>, string>)
    ensures r == ContainerList(reply, interfaces)
  {
    if reply.SendFailed? {
      return Failure("Failed to fetch containers: " + reply.cause);
    }
    if !reply.status.IsSuccess() {
      return Failure("API error: " + reply.status.text);
    }
    if reply.body.Failure? {
      return Failure("Failed to parse response: " + reply.body.error);
    }
    var raw := reply.body.value;
    var containers: seq<Container> := [];
    for i := 0 to |raw|
      invariant |containers| == i
      invariant forall k :: 0 <= k < i ==>
                  containers[k] == Normalize(raw[k], AddressFor(raw[k], interfaces))
    {
      var ct := raw[i];
      var ip: Option<string> := None;
      if ct.status == Running {
        var found := GetContainerIp(interfaces(ct.vmid));
        ip := found.ToOption();
      }
      containers := containers + [Normalize(ct, ip)];
    }
    assert containers == NormalizeAll(raw, interfaces);
    var a := new Container[|containers|](k requires 0 <= k < |containers| => containers[k]);
    assert a[..] == containers;
    SortByKey.SortInPlace(a, Vmid);
    return Success(a[..]);
  }

  /**
   * A successful listing has one entry per raw record: it is a permutation
   * of the normalised records, sorted by vmid, and containers sharing a
   * vmid keep their listing order.
   */
  lemma ContainerListIsSortedPermutation(reply: Exchange<seq<RawContainer>>,
                                         interfaces: U32 -> Exchange<seq<NetworkInterface>>)
    requires ContainerList(reply, interfaces).Success?
    ensures reply.Answered? && reply.body.Success?
    ensures |ContainerList(reply, interfaces).value| == |reply.body.value|
    ensures multiset(ContainerList(reply, interfaces).value) ==
            multiset(NormalizeAll(reply.body.value, interfaces))
    ensures SortByKey.Sorted(ContainerList(reply, interfaces).value, Vmid)
    ensures forall vmid :: SortByKey.WithKey(ContainerList(reply, interfaces).value, Vmid, vmid) ==
                           SortByKey.WithKey(NormalizeAll(reply.body.value, interfaces), Vmid, vmid)
  {
    SortByKey.SortSpec(NormalizeAll(reply.body.value, interfaces), Vmid);
  }

  /**
   * Every listed container comes from one raw record, with that record's
   * vmid and status; it has an address only if it is running, and a
   * running one has exactly the address its lookup found.
   */
  lemma ContainerListEntries(reply: Exchange<seq<RawContainer>>,
                             interfaces: U32 -> Exchange<seq<NetworkInterface>>,
                             c: Container)
    requires ContainerList(reply, interfaces).Success?
    requires c in ContainerList(reply, interfaces).value
    ensures reply.Answered? && reply.body.Success?
    ensures exists k :: 0 <= k < |reply.body.value| &&
                        c == Normalize(reply.body.value[k], AddressFor(reply.body.value[k], interfaces)) &&
                        c.vmid == reply.body.value[k].vmid && c.status == reply.body.value[k].status
    ensures c.status != Running ==> c.ipAddress == None
    ensures c.status == Running ==> c.ipAddress == ContainerIp(interfaces(c.vmid)).ToOption()
  {
    var raw := reply.body.value;
    var all := NormalizeAll(raw, interfaces);
    ContainerListIsSortedPermutation(reply, interfaces);
    assert c in multiset(all);
    var k :| 0 <= k < |all| && all[k] == c;
    assert c == Normalize(raw[k], AddressFor(raw[k], interfaces));
  }

  /**
   * An address lookup cannot make the listing fail: whether and how the
   * listing fails depends on the listing request alone.
   */
  lemma ListFailureIgnoresAddressLookups(reply: Exchange<seq<RawContainer>>,
                                         interfaces1: U32 -> Exchange<seq<NetworkInterface>>,
                                         interfaces2: U32 -> Exchange<seq<NetworkInterface>>)
    ensures ContainerList(reply, interfaces1).Failure? <==> ContainerList(reply, interfaces2).Failure?
    ensures ContainerList(reply, interfaces1).Failure? ==>
            ContainerList(reply, interfaces1) == ContainerList(reply, interfaces2)
    ensures ContainerList(reply, interfaces1).Success? <==>
            reply.Answered? && reply.status.IsSuccess() && reply.body.Success?
  {
  }

  // ---------------------------------------------------------------------
  // Start, stop and delete
  // ---------------------------------------------------------------------

  datatype Action = Start | Stop | Delete

  /**
   * The outcome of a lifecycle request, whose body the client never reads:
   * either it could not be sent, or a status came back.
   */
  datatype ActionReply = NotSent(cause: string) | Replied(status: StatusCode)

  function Verb(action: Action): string {
    match action
    case Start => "start"
    case Stop => "stop"
    case Delete => "delete"
  }

  function PastTense(action: Action): string {
    match action
    case Start => "started"
    case Stop => "stopped"
    case Delete => "deleted"
  }

  function ErrorPrefix(action: Action): string {
    "Failed to " + Verb(action) + " container: "
  }

  function SuccessSuffix(action: Action): string {
    " " + PastTense(action) + " successfully"
  }

  const MessagePrefix: string := "Container "

  /**
   * `start_container`, `stop_container` and `delete_container`: one request
   * each; a 2xx answer yields `Container <vmid> <past tense> successfully`.
   */
  function ContainerAction(action: Action, vmid: U32, reply: ActionReply): (r: Result<string, string>)
    ensures r.Success? <==> reply.Replied? && reply.status.IsSuccess()
    ensures r.Failure? ==> ErrorPrefix(action) <= r.error
    ensures r.Success? ==> MessagePrefix <= r.value
  {
    match reply
    case NotSent(cause) => Failure(ErrorPrefix(action) + cause)
    case Replied(status) =>
      if !status.IsSuccess() then Failure(ErrorPrefix(action) + status.text)
      else Success(MessagePrefix + Format.Decimal(vmid) + SuccessSuffix(action))
  }

  /** The action whose success message ends in `tail`, if any. */
  function ActionOfSuffix(tail: string): Option<Action> {
    if tail == SuccessSuffix(Start) then Some(Start)
    else if tail == SuccessSuffix(Stop) then Some(Stop)
    else if tail == SuccessSuffix(Delete) then Some(Delete)
    else None
  }

  /**
   * Reads a success message back into the action and the vmid it reports.
   * Only the canonical decimal form is accepted (no leading zero).
   */
  function ParseActionMessage(m: string): Option<(Action, nat)> {
    if !(MessagePrefix <= m) then None
    else
      var rest := m[|MessagePrefix|..];
      var digits := Format.TakeDigits(rest);
      var action := ActionOfSuffix(rest[|digits|..]);
      if digits == [] || (|digits| > 1 && digits[0] == '0') || action.None? then None
      else Some((action.value, Format.ParseDecimal(digits)))
  }

  /** The three success messages differ after the vmid. */
  lemma SuccessSuffixesDiffer(a1: Action, a2: Action)
    requires a1 != a2
    ensures SuccessSuffix(a1) != SuccessSuffix(a2)
  {
    var s1, s2 := SuccessSuffix(a1), SuccessSuffix(a2);
    assert s1[1] == if a1 == Delete then 'd' else 's';
    assert s2[1] == if a2 == Delete then 'd' else 's';
    assert a1 != Delete && a2 != Delete ==> s1[3] != s2[3];
  }

  lemma ActionOfSuffixRoundTrip(action: Action)
    ensures ActionOfSuffix(SuccessSuffix(action)) == Some(action)
  {
    if action != Start { SuccessSuffixesDiffer(action, Start); }
    if action != Stop { SuccessSuffixesDiffer(action, Stop); }
  }

  /** How the parser sees `Container <digits><suffix>` when the suffix starts with a space. */
  lemma SuccessMessageParts(d: string, suffix: string)
    requires Format.AllDigits(d)
    requires suffix != [] && suffix[0] == ' '
    ensures MessagePrefix <= MessagePrefix + d + suffix
    ensures (MessagePrefix + d + suffix)[|MessagePrefix|..] == d + suffix
    ensures Format.TakeDigits(d + suffix) == d
    ensures (d + suffix)[|d|..] == suffix
  {
    assert MessagePrefix + d + suffix == MessagePrefix + (d + suffix);
    Format.TakeDigitsOfDigitsThen(d, suffix);
  }

  /** A success message names the action that was taken and the container it was taken on. */
  lemma ActionMessageRoundTrip(action: Action, vmid: U32, reply: ActionReply)
    requires ContainerAction(action, vmid, reply).Success?
    ensures ParseActionMessage(ContainerAction(action, vmid, reply).value) == Some((action, vmid))
  {
    var d := Format.Decimal(vmid);
    var suffix := SuccessSuffix(action);
    assert ContainerAction(action, vmid, reply).value == MessagePrefix + d + suffix;
    assert suffix[0] == ' ';
    SuccessMessageParts(d, suffix);
    ActionOfSuffixRoundTrip(action);
    Format.DecimalRoundTrip(vmid);
  }

  lemma ActionOfSuffixInverse(tail: string)
    requires ActionOfSuffix(tail).Some?
    ensures tail == SuccessSuffix(ActionOfSuffix(tail).value)
  {
  }

  /** What an accepted message consists of, read off the parser. */
  lemma AcceptedMessageParts(m: string, action: Action, n: nat)
    requires ParseActionMessage(m) == Some((action, n))
    ensures MessagePrefix <= m
    ensures var digits := Format.TakeDigits(m[|MessagePrefix|..]);
            digits != [] && (|digits| > 1 ==> digits[0] != '0') &&
            Format.ParseDecimal(digits) == n &&
            ActionOfSuffix(m[|MessagePrefix|..][|digits|..]) == Some(action)
  {
  }

  /** A string is its prefix, then a prefix of the rest, then what remains. */
  lemma Reassemble(m: string, p: string, d: string)
    requires p <= m && d <= m[|p|..]
    ensures m == p + d + m[|p|..][|d|..]
  {
    assert m == p + m[|p|..];
    assert m[|p|..] == d + m[|p|..][|d|..];
  }

  /**
   * Conversely, every message the parser accepts is the success message of
   * the action and vmid it reports, so nothing else is read as one.
   */
  lemma ParsedMessageIsSuccessMessage(m: string, action: Action, vmid: U32)
    requires ParseActionMessage(m) == Some((action, vmid as nat))
    ensures m == MessagePrefix + Format.Decimal(vmid) + SuccessSuffix(action)
  {
    AcceptedMessageParts(m, action, vmid);
    var digits := Format.TakeDigits(m[|MessagePrefix|..]);
    var tail := m[|MessagePrefix|..][|digits|..];
    ActionOfSuffixInverse(tail);
    Format.CanonicalDecimalRoundTrip(digits);
    Reassemble(m, MessagePrefix, digits);
  }
}
