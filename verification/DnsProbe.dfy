/** The DNS diagnostic's resolver list and its probe loop under a time budget. */
module DnsProbe {
  import opened Common
  import opened DnsAnswer

  // Times are in nanoseconds.
  const MILLISECOND: nat := 1_000_000
  const DNS_BUDGET: nat := 5_000 * MILLISECOND
  const MAX_PROBE_TIME: nat := 500 * MILLISECOND

  datatype Ip = V4(value: nat) | V6(value: nat)

  datatype Role = Router | Dhcp | System

  datatype Resolver = Resolver(ip: Ip, roles: seq<Role>)

  // ----- The resolver list -----

  function WithRole(resolver: Resolver, role: Role): Resolver {
    if role in resolver.roles then resolver else resolver.(roles := resolver.roles + [role])
  }

  /** A resolver is listed once, with every role it was found in. */
  function AddResolver(resolvers: seq<Resolver>, ip: Ip, role: Role): seq<Resolver> {
    if resolvers == [] then [Resolver(ip, [role])]
    else if resolvers[0].ip == ip then
      [WithRole(resolvers[0], role)] + resolvers[1..]
    else [resolvers[0]] + AddResolver(resolvers[1..], ip, role)
  }

  function Found(found: seq<(Ip, Role)>): seq<Resolver> {
    if found == [] then []
    else
      var last := found[|found| - 1];
      AddResolver(Found(found[..|found| - 1]), last.0, last.1)
  }

  predicate Distinct<T(==)>(s: seq<T>) {
    forall i, j :: 0 <= i < j < |s| ==> s[i] != s[j]
  }

  predicate WellListed(resolvers: seq<Resolver>) {
    && (forall i, j :: 0 <= i < j < |resolvers| ==> resolvers[i].ip != resolvers[j].ip)
    && (forall i :: 0 <= i < |resolvers| ==> resolvers[i].roles != [] && Distinct(resolvers[i].roles))
  }

  predicate Lists(resolvers: seq<Resolver>, ip: Ip, role: Role) {
    exists i :: 0 <= i < |resolvers| && resolvers[i].ip == ip && role in resolvers[i].roles
  }

  function Position(resolvers: seq<Resolver>, ip: Ip): (k: nat)
    ensures k <= |resolvers| && (k < |resolvers| ==> resolvers[k].ip == ip)
    ensures forall i :: 0 <= i < k ==> resolvers[i].ip != ip
  {
    if resolvers == [] || resolvers[0].ip == ip then 0 else 1 + Position(resolvers[1..], ip)
  }

  lemma UpdateTail(x: Resolver, rest: seq<Resolver>, k: nat, v: Resolver)
    requires k < |rest|
    ensures ([x] + rest)[k + 1 := v] == [x] + rest[k := v]
  {
  }

  lemma AddAtHead(resolvers: seq<Resolver>, ip: Ip, role: Role)
    requires resolvers == [] || resolvers[0].ip == ip
    ensures AddResolver(resolvers, ip, role) ==
            if resolvers != [] then resolvers[0 := WithRole(resolvers[0], role)] else [Resolver(ip, [role])]
  {
    hide WithRole;
  }

  /** One entry changes, or one is appended. */
  lemma {:induction false} AddIs(resolvers: seq<Resolver>, ip: Ip, role: Role)
    ensures var k := Position(resolvers, ip);
            AddResolver(resolvers, ip, role) ==
            if k < |resolvers| then resolvers[k := WithRole(resolvers[k], role)] else resolvers + [Resolver(ip, [role])]
  {
    hide WithRole;
    if resolvers == [] || resolvers[0].ip == ip {
      AddAtHead(resolvers, ip, role);
      assert [] + [Resolver(ip, [role])] == [Resolver(ip, [role])];
    } else {
      var x, rest := resolvers[0], resolvers[1..];
      var k := Position(rest, ip);
      AddIs(rest, ip, role);
      assert resolvers == [x] + rest && AddResolver(resolvers, ip, role) == [x] + AddResolver(rest, ip, role);
      hide AddResolver, Position;
      if k < |rest| {
        UpdateTail(x, rest, k, WithRole(rest[k], role));
        assert resolvers[k + 1] == rest[k];
      } else {
        assert [x] + (rest + [Resolver(ip, [role])]) == ([x] + rest) + [Resolver(ip, [role])];
      }
    }
  }

  lemma AddKeepsList(resolvers: seq<Resolver>, ip: Ip, role: Role)
    requires WellListed(resolvers)
    ensures WellListed(AddResolver(resolvers, ip, role))
  {
    hide AddResolver, Position;
    AddIs(resolvers, ip, role);
  }

  lemma {:induction false} AddLists(resolvers: seq<Resolver>, ip: Ip, role: Role, other: Ip, otherRole: Role)
    ensures Lists(AddResolver(resolvers, ip, role), other, otherRole) <==>
            Lists(resolvers, other, otherRole) || (other == ip && otherRole == role)
  {
    var added := AddResolver(resolvers, ip, role);
    if resolvers == [] {
      assert added[0] == Resolver(ip, [role]);
    } else {
      ListsFirst(added, other, otherRole);
      ListsFirst(resolvers, other, otherRole);
      if resolvers[0].ip == ip {
        assert added[1..] == resolvers[1..];
      } else {
        AddLists(resolvers[1..], ip, role, other, otherRole);
        assert added[1..] == AddResolver(resolvers[1..], ip, role);
      }
    }
  }

  lemma ListsFirst(resolvers: seq<Resolver>, ip: Ip, role: Role)
    requires resolvers != []
    ensures Lists(resolvers, ip, role) <==>
            (resolvers[0].ip == ip && role in resolvers[0].roles) || Lists(resolvers[1..], ip, role)
  {
    if Lists(resolvers[1..], ip, role) {
      var i :| 0 <= i < |resolvers[1..]| && resolvers[1..][i].ip == ip && role in resolvers[1..][i].roles;
      assert resolvers[i + 1] == resolvers[1..][i];
    }
    if Lists(resolvers, ip, role) {
      var i :| 0 <= i < |resolvers| && resolvers[i].ip == ip && role in resolvers[i].roles;
      if i > 0 { assert resolvers[1..][i - 1] == resolvers[i]; }
    }
  }

  /** Every finding is listed, nothing else is, and no address or role twice. */
  lemma {:induction false} FoundExactly(found: seq<(Ip, Role)>)
    ensures WellListed(Found(found))
    ensures forall ip, role :: Lists(Found(found), ip, role) <==> (ip, role) in found
  {
    hide AddResolver, Lists, WellListed;
    if found == [] {
      NothingFound();
    } else {
      var before, last := found[..|found| - 1], found[|found| - 1];
      FoundExactly(before);
      AddKeepsList(Found(before), last.0, last.1);
      forall ip, role ensures Lists(Found(found), ip, role) <==> (ip, role) in found {
        AddLists(Found(before), last.0, last.1, ip, role);
        assert found == before + [last];
      }
    }
  }

  lemma NothingFound()
    ensures WellListed([]) && forall ip, role :: !Lists([], ip, role)
  {
  }

  // ----- The probe loop -----

  datatype Outcome =
    | LocalAnswer | PublicAnswer | MixedAnswer | NoDataAnswer | NoSuchName | TimedOut | Unclear | NotSupported

  datatype AddressMatch = SameAddress | OtherAddress | NotCompared

  datatype Answer = Answer(outcome: Outcome, addresses: seq<Ip>)

  datatype Lookup = Lookup(resolver: Resolver, kind: RecordType, answer: Answer, compared: AddressMatch)

  /** A query on the wire. */
  datatype Query = Query(resolver: Ip, kind: RecordType, at: nat, timeout: nat)

  const MDNS: Answer := Answer(NotSupported, [])
  const EXHAUSTED: Answer := Answer(Unclear, [])

  function Clamped(timeout: nat): nat {
    if timeout < MILLISECOND then MILLISECOND else Least(timeout, MAX_PROBE_TIME)
  }

  predicate SameFamily(kind: RecordType, ip: Ip) {
    kind.A? <==> ip.V4?
  }

  /** Addresses are compared only with an expectation of the same family. */
  function Compare(answer: Answer, kind: RecordType, expected: Option<Ip>): AddressMatch {
    if answer.addresses == [] || expected.None? || !SameFamily(kind, expected.value) then NotCompared
    else if forall k :: 0 <= k < |answer.addresses| ==> answer.addresses[k] == expected.value then SameAddress
    else OtherAddress
  }

  method CompareAll(answer: Answer, kind: RecordType, expected: Option<Ip>) returns (compared: AddressMatch)
    ensures compared == Compare(answer, kind, expected)
    ensures compared == NotCompared <==>
              || answer.addresses == [] || expected.None?
              || (kind.A? && expected.value.V6?) || (kind.Aaaa? && expected.value.V4?)
    ensures compared == SameAddress ==> expected.Some? && forall a <- answer.addresses :: a == expected.value
    ensures compared == OtherAddress ==>
              expected.Some? && exists k :: 0 <= k < |answer.addresses| && answer.addresses[k] != expected.value
  {
    if answer.addresses == [] || expected.None? || !SameFamily(kind, expected.value) { return NotCompared; }
    for k := 0 to |answer.addresses|
      invariant forall i :: 0 <= i < k ==> answer.addresses[i] == expected.value
    {
      if answer.addresses[k] != expected.value { return OtherAddress; }
    }
    return SameAddress;
  }

  /** The diagnostic with a scripted probe. A query takes at most its timeout or
      `floor`, whichever is longer: a probe that honours its timeout has floor 0,
      the native one raises it to a millisecond. */
  class Prober {
    var now: nat
    var probes: nat
    ghost var log: seq<Query>
    var sent: nat
    const cancelled: nat -> bool
    const durations: nat -> nat
    const answers: nat -> Answer
    const floor: nat

    constructor (cancelled: nat -> bool, durations: nat -> nat, answers: nat -> Answer, floor: nat)
      ensures now == 0 && probes == 0 && log == [] && sent == 0 && this.floor == floor
    {
      this.cancelled, this.durations, this.answers, this.floor := cancelled, durations, answers, floor;
      now, probes, log, sent := 0, 0, [], 0;
    }

    method Cancelled() returns (c: bool)
      modifies this`probes
      ensures c == cancelled(old(probes)) && probes == old(probes) + 1
    {
      c := cancelled(probes);
      probes := probes + 1;
    }

    method Send(resolver: Ip, kind: RecordType, timeout: nat) returns (answer: Answer)
      modifies this`now, this`log, this`sent
      ensures log == old(log) + [Query(resolver, kind, old(now), timeout)]
      ensures old(now) <= now <= old(now) + if timeout < floor then floor else timeout
      ensures sent == old(sent) + 1 && answer == answers(old(sent))
    {
      answer := answers(sent);
      log := log + [Query(resolver, kind, now, timeout)];
      now := now + Least(durations(sent), if timeout < floor then floor else timeout);
      sent := sent + 1;
    }

    /** Every query since `from` waits at most half a second and no longer than
        asked, but for the least wait of a millisecond, and is timed to end within
        five seconds. */
    ghost predicate Bounded(from: nat, started: nat, timeout: nat)
      reads this
    {
      from <= |log| &&
      forall k :: from <= k < |log| ==>
        && 0 < log[k].timeout <= 500_000_000 && (log[k].timeout <= timeout || log[k].timeout <= 1_000_000)
        && log[k].at + log[k].timeout <= started + 5_000_000_000
    }

    method LookUp(resolver: Resolver, kind: RecordType, mdns: bool, timeout: nat, expected: Option<Ip>,
                  started: nat, ghost from: nat)
      returns (lookup: Lookup)
      requires started <= now && Bounded(from, started, timeout)
      modifies this`now, this`log, this`sent
      ensures Bounded(from, started, timeout) && old(log) <= log && old(now) <= now
      ensures lookup.resolver == resolver && lookup.kind == kind
      ensures lookup.compared == Compare(lookup.answer, kind, expected)
      ensures if mdns || old(now) >= started + 5_000_000_000
              then log == old(log) && now == old(now) && lookup.answer.addresses == []
                   && lookup.answer.outcome == (if mdns then NotSupported else Unclear)
              else |log| == |old(log)| + 1 && log[|old(log)|].resolver == resolver.ip && log[|old(log)|].kind == kind
                   && lookup.answer == answers(old(sent))
                   && (timeout >= 1_000_000 && old(now) + Least(timeout, 500_000_000) <= started + 5_000_000_000 ==>
                         log[|old(log)|].timeout == Least(timeout, 500_000_000))
      ensures now == old(now) || now <= started + 5_000_000_000 || now < started + 5_000_000_000 + floor
    {
      var remaining := if now - started < DNS_BUDGET then DNS_BUDGET - (now - started) else 0;
      var answer: Answer;
      if mdns {
        answer := MDNS;
      } else if remaining == 0 {
        answer := EXHAUSTED;
      } else {
        answer := Send(resolver.ip, kind, Least(Clamped(timeout), remaining));
      }
      var compared := CompareAll(answer, kind, expected);
      lookup := Lookup(resolver, kind, answer, compared);
    }

    /** Both record types at every resolver, until a cancellation. */
    method Probe(resolvers: seq<Resolver>, mdns: bool, timeout: nat, expected: Option<Ip>)
      returns (lookups: seq<Lookup>, stopped: bool)
      modifies this`now, this`probes, this`log, this`sent
      ensures |lookups| <= 2 * |resolvers| && (!stopped ==> |lookups| == 2 * |resolvers|)
      ensures forall k :: 0 <= k < |lookups| ==>
                && lookups[k].resolver == resolvers[k / 2] && lookups[k].kind == (if k % 2 == 0 then A else Aaaa)
                && lookups[k].compared == Compare(lookups[k].answer, lookups[k].kind, expected)
      ensures old(log) <= log && |log| - |old(log)| <= |lookups|
      ensures mdns ==>
                && log == old(log)
                && forall k :: 0 <= k < |lookups| ==> lookups[k].answer == Answer(NotSupported, [])
      ensures Bounded(|old(log)|, old(now), timeout)
      ensures old(now) <= now
      ensures now <= old(now) + 5_000_000_000 || now < old(now) + 5_000_000_000 + floor
      ensures stopped <==> cancelled(old(probes) + |lookups|)
      ensures forall k :: old(probes) <= k < old(probes) + |lookups| ==> !cancelled(k)
    {
      hide Compare, Clamped, Least;
      var started := now;
      ghost var from := |log|;
      lookups, stopped := [], false;
      var plan: nat := 2 * |resolvers|;
      for k := 0 to plan
        invariant !stopped && |lookups| == k && old(log) <= log && |log| - from <= k && started <= now
        invariant forall i :: 0 <= i < k ==>
                    && lookups[i].resolver == resolvers[i / 2] && lookups[i].kind == (if i % 2 == 0 then A else Aaaa)
                    && lookups[i].compared == Compare(lookups[i].answer, lookups[i].kind, expected)
        invariant mdns ==>
                    && log == old(log)
                    && forall i :: 0 <= i < k ==> lookups[i].answer == Answer(NotSupported, [])
        invariant Bounded(from, started, timeout)
        invariant now <= started + DNS_BUDGET || now < started + DNS_BUDGET + floor
        invariant probes == old(probes) + k && forall i :: old(probes) <= i < probes ==> !cancelled(i)
      {
        stopped := Cancelled();
        if stopped { break; }
        var lookup := LookUp(resolvers[k / 2], if k % 2 == 0 then A else Aaaa, mdns, timeout, expected, started, from);
        lookups := lookups + [lookup];
      }
      var late := Cancelled();
      stopped := stopped || late;
    }
  }
}
