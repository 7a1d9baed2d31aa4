/** The DNS answer parser: records, the in-packet alias chain and the verdict. */
module DnsAnswer {
  import opened Common
  import opened DnsName

  const RECORD_LIMIT: nat := 64
  const CHAIN_LIMIT: nat := 16

  datatype RecordType = A | Aaaa {
    function Code(): nat {
      match this
      case A => 1
      case Aaaa => 28
    }

    function Size(): nat {
      match this
      case A => 4
      case Aaaa => 16
    }
  }

  /** One resource record as far as the parser uses it. Addresses are numbers,
      the octets read in network order. */
  datatype Entry = Address(owner: string, address: nat) | Alias(owner: string, target: string) | Other

  datatype Scope = Local | Public | Mixed

  datatype Verdict =
    | Decided(addresses: seq<nat>, scope: Scope)
    | NoData
    | NxDomain
    | Unsupported
    | Unknown

  // ----- Addresses -----

  function Value(packet: seq<byte>, from: nat, size: nat): nat
    requires from + size <= |packet|
  {
    if size == 0 then 0 else
      var last: nat := packet[from + size - 1];
      256 * Value(packet, from, size - 1) + last
  }

  /** Neither unspecified nor multicast. */
  predicate Usable(kind: RecordType, address: nat) {
    match kind
    case A => address != 0 && !(224 <= address / 0x100_0000 <= 239)
    case Aaaa => address != 0 && address / 0x1_00000000_00000000_00000000_000000 != 0xff
  }

  /** Private, link-local, unique-local or loopback. */
  predicate IsLocal(kind: RecordType, address: nat) {
    match kind
    case A =>
      || address / 0x100_0000 == 10 || address / 0x100_0000 == 127
      || address / 0x10_0000 == 0xac1 || address / 0x1_0000 == 0xc0a8 || address / 0x1_0000 == 0xa9fe
    case Aaaa =>
      || address == 1
      || address / 0x2_00000000_00000000_00000000_000000 == 0x7e
      || address / 0x400000_00000000_00000000_00000000 == 0x3fa
  }

  function Decide(kind: RecordType, addresses: seq<nat>): Verdict {
    var local := exists a <- addresses :: IsLocal(kind, a);
    var public := exists a <- addresses :: !IsLocal(kind, a);
    Decided(addresses, if local && public then Mixed else if local then Local else Public)
  }

  predicate Ascending(s: seq<nat>) {
    forall i, j :: 0 <= i < j < |s| ==> s[i] < s[j]
  }

  lemma Prepend(x: nat, s: seq<nat>)
    requires Ascending(s) && forall y :: y in s ==> x < y
    ensures Ascending([x] + s)
  {
    forall i, j | 0 <= i < j < |[x] + s| ensures ([x] + s)[i] < ([x] + s)[j] {
      assert ([x] + s)[j] == s[j - 1];
      assert s[j - 1] in s;
    }
  }

  function Insert(x: nat, s: seq<nat>): (r: seq<nat>)
    requires Ascending(s)
    ensures Ascending(r)
    ensures forall y :: y in r <==> y == x || y in s
  {
    if s == [] then [x]
    else if x < s[0] then
      assert forall i :: 0 <= i < |s| ==> s[0] <= s[i];
      [x] + s
    else if x == s[0] then s
    else
      Tail(s);
      assert forall y :: y in s ==> s[0] <= y;
      Prepend(s[0], Insert(x, s[1..]));
      [s[0]] + Insert(x, s[1..])
  }

  /** Sorting and removing duplicates. */
  function SortDedup(s: seq<nat>): (r: seq<nat>)
    ensures Ascending(r)
    ensures forall y :: y in r <==> y in s
  {
    if s == [] then [] else Insert(s[0], SortDedup(s[1..]))
  }

  /** A strictly ascending sequence is determined by its elements. */
  lemma {:induction false} AscendingUnique(a: seq<nat>, b: seq<nat>)
    requires Ascending(a) && Ascending(b)
    requires forall y :: y in a <==> y in b
    ensures a == b
    decreases |a|
  {
    assert b == [] || b[0] in b;
    if a != [] {
      assert a[0] in b;
      assert b[0] in a;
      assert a[0] == b[0];
      Tail(a);
      Tail(b);
      AscendingUnique(a[1..], b[1..]);
    }
  }

  lemma Tail(a: seq<nat>)
    requires a != [] && Ascending(a)
    ensures Ascending(a[1..])
    ensures forall y :: y in a[1..] <==> y in a && y != a[0]
  {
    forall y | y in a && y != a[0] ensures y in a[1..] {
      var i :| 0 <= i < |a| && a[i] == y;
      assert a[1..][i - 1] == y;
    }
  }

  // ----- Records -----

  /** The record at `cursor` and the cursor behind it. */
  function EntryAt(packet: seq<byte>, cursor: nat, kind: RecordType): Option<(Entry, nat)> {
    match NameAt(packet, cursor)
    case None => None
    case Some((owner, at)) =>
      if Word(packet, at).None? || Word(packet, at + 2).None? || Word(packet, at + 8).None? then None
      else
        var length := Word(packet, at + 8).value;
        var data := at + 10;
        if data + length > |packet| then None
        else if Word(packet, at + 2).value == 1 && Word(packet, at).value == kind.Code() then
          if length == kind.Size() then Some((Address(owner, Value(packet, data, length)), data + length)) else None
        else if Word(packet, at + 2).value == 1 && Word(packet, at).value == 5 then
          match NameAt(packet, data)
          case None => None
          case Some((target, end)) =>
            if end == data + length then Some((Alias(owner, target), data + length)) else None
        else Some((Other, data + length))
  }

  function Entries(packet: seq<byte>, cursor: nat, count: nat, kind: RecordType): Option<seq<Entry>>
    decreases count
  {
    if count == 0 then Some([])
    else
      match EntryAt(packet, cursor, kind)
      case None => None
      case Some((entry, next)) =>
        match Entries(packet, next, count - 1, kind)
        case None => None
        case Some(rest) => Some([entry] + rest)
  }

  // ----- The alias chain -----

  function AddressesOf(entries: seq<Entry>, owner: string): seq<nat> {
    if entries == [] then []
    else
      (if entries[0].Address? && entries[0].owner == owner then [entries[0].address] else [])
      + AddressesOf(entries[1..], owner)
  }

  function FirstAlias(entries: seq<Entry>, owner: string): Option<string> {
    if entries == [] then None
    else if entries[0].Alias? && entries[0].owner == owner then Some(entries[0].target)
    else FirstAlias(entries[1..], owner)
  }

  function Resolve(entries: seq<Entry>, owner: string, kind: RecordType, steps: nat): Option<Verdict>
    decreases steps
  {
    if steps == 0 then None
    else
      var addresses := AddressesOf(entries, owner);
      if addresses != [] then
        if exists a <- addresses :: !Usable(kind, a) then None
        else Some(Decide(kind, SortDedup(addresses)))
      else
        match FirstAlias(entries, owner)
        case Some(target) => Resolve(entries, target, kind, steps - 1)
        case None => Some(if exists e <- entries :: e.Alias? then Unknown else NoData)
  }

  /** The name after `k` first-match alias steps from `owner`. */
  function Chain(entries: seq<Entry>, owner: string, k: nat): Option<string>
    decreases k
  {
    if k == 0 then Some(owner)
    else
      match FirstAlias(entries, owner)
      case None => None
      case Some(target) => Chain(entries, target, k - 1)
  }

  // ----- The packet -----

  /** The reply's header and question are those of an answer to our query. */
  predicate Related(packet: seq<byte>, id: nat, name: string, kind: RecordType) {
    && Word(packet, 2).Some? && Word(packet, 0) == Some(id) && Word(packet, 4) == Some(1)
    && Word(packet, 2).value / 0x800 == 0x10
    && Normalize(name).Some? && NameAt(packet, 12).Some?
    && var (question, at) := NameAt(packet, 12).value;
       question == Normalize(name).value && Word(packet, at) == Some(kind.Code()) && Word(packet, at + 2) == Some(1)
  }

  /** The answer records of a reply, if all of them can be read. */
  function AnswerEntries(packet: seq<byte>, kind: RecordType): Option<seq<Entry>>
    requires NameAt(packet, 12).Some?
  {
    if Word(packet, 6).None? || Word(packet, 6).value > RECORD_LIMIT then None
    else Entries(packet, NameAt(packet, 12).value.1 + 4, Word(packet, 6).value, kind)
  }

  /** `parse_dns_packet`; `None` stands for a malformed or unrelated reply. */
  function PacketAnswer(packet: seq<byte>, id: nat, name: string, kind: RecordType): Option<Verdict> {
    if !Related(packet, id, name, kind) then None
    else
      var flags := Word(packet, 2).value;
      if (flags / 0x200) % 2 == 1 then Some(Unsupported)
      else if flags % 0x10 == 3 then Some(NxDomain)
      else if flags % 0x10 != 0 then Some(Unknown)
      else
        match AnswerEntries(packet, kind)
        case None => None
        case Some(entries) => Resolve(entries, Normalize(name).value, kind, CHAIN_LIMIT)
  }

  // ----- What a decided answer is -----

  lemma {:induction false} AddressesOfExact(entries: seq<Entry>, owner: string)
    ensures forall a :: a in AddressesOf(entries, owner) <==> Address(owner, a) in entries
  {
    if entries != [] {
      AddressesOfExact(entries[1..], owner);
      assert entries == [entries[0]] + entries[1..];
    }
  }

  /** `list` holds, in ascending order and without duplicates, the addresses of
      the first name on the alias chain that has any, found within `steps` names. */
  ghost predicate AnswersChain(entries: seq<Entry>, owner: string, kind: RecordType, steps: nat, list: seq<nat>, k: nat)
  {
    && k < steps && Chain(entries, owner, k).Some?
    && (forall j: nat :: j < k ==>
          (Chain(entries, owner, j).Some? && forall a: nat :: Address(Chain(entries, owner, j).value, a) !in entries))
    && list != [] && Ascending(list)
    && (forall a: nat :: a in list <==> Address(Chain(entries, owner, k).value, a) in entries)
    && (forall a: nat :: a in list ==> Usable(kind, a))
  }

  lemma {:induction false} DecidedFollowsChain(entries: seq<Entry>, owner: string, kind: RecordType, steps: nat)
    returns (k: nat)
    requires Resolve(entries, owner, kind, steps).Some? && Resolve(entries, owner, kind, steps).value.Decided?
    ensures AnswersChain(entries, owner, kind, steps, Resolve(entries, owner, kind, steps).value.addresses, k)
    decreases steps
  {
    hide AddressesOf, FirstAlias, SortDedup, Usable;
    AddressesOfExact(entries, owner);
    if AddressesOf(entries, owner) != [] {
      k := 0;
      var list := SortDedup(AddressesOf(entries, owner));
      assert AddressesOf(entries, owner)[0] in list;
    } else {
      var target := FirstAlias(entries, owner).value;
      k := DecidedFollowsChain(entries, target, kind, steps - 1);
      k := k + 1;
      forall j: nat | j < k
        ensures Chain(entries, owner, j).Some?
        ensures forall a: nat :: Address(Chain(entries, owner, j).value, a) !in entries
      {
        if j > 0 { assert Chain(entries, owner, j) == Chain(entries, target, j - 1); }
      }
    }
  }

  lemma ChainEnds(entries: seq<Entry>, owner: string, kind: RecordType, steps: nat, list: seq<nat>)
    requires AnswersChain(entries, owner, kind, steps, list, 0)
    ensures AddressesOf(entries, owner) != [] && SortDedup(AddressesOf(entries, owner)) == list
    ensures steps > 0 && forall a <- AddressesOf(entries, owner) :: Usable(kind, a)
  {
    hide AddressesOf, FirstAlias, SortDedup, Usable;
    AddressesOfExact(entries, owner);
    assert list[0] in AddressesOf(entries, owner);
    AscendingUnique(list, SortDedup(AddressesOf(entries, owner)));
  }

  lemma ChainGoesOn(entries: seq<Entry>, owner: string, kind: RecordType, steps: nat, list: seq<nat>, k: nat)
    requires k > 0 && AnswersChain(entries, owner, kind, steps, list, k)
    ensures steps > 0 && AddressesOf(entries, owner) == [] && FirstAlias(entries, owner).Some?
    ensures AnswersChain(entries, FirstAlias(entries, owner).value, kind, steps - 1, list, k - 1)
  {
    hide AddressesOf, FirstAlias, SortDedup, Usable;
    AddressesOfExact(entries, owner);
    assert Chain(entries, owner, 0) == Some(owner);
    assert AddressesOf(entries, owner) == [] || AddressesOf(entries, owner)[0] in AddressesOf(entries, owner);
    assert FirstAlias(entries, owner).Some?;
    var target := FirstAlias(entries, owner).value;
    forall j: nat | j < k - 1
      ensures Chain(entries, target, j).Some?
      ensures forall a: nat :: Address(Chain(entries, target, j).value, a) !in entries
    {
      assert Chain(entries, owner, j + 1) == Chain(entries, target, j);
    }
  }

  lemma {:induction false} ChainDecides(
      entries: seq<Entry>, owner: string, kind: RecordType, steps: nat, list: seq<nat>, k: nat)
    requires AnswersChain(entries, owner, kind, steps, list, k)
    ensures Resolve(entries, owner, kind, steps) == Some(Decide(kind, list))
    decreases steps
  {
    hide AnswersChain, AddressesOf, FirstAlias, SortDedup, Usable, Decide;
    if k == 0 {
      ChainEnds(entries, owner, kind, steps, list);
    } else {
      ChainGoesOn(entries, owner, kind, steps, list, k);
      ChainDecides(entries, FirstAlias(entries, owner).value, kind, steps - 1, list, k - 1);
    }
  }

  lemma ResolveExact(entries: seq<Entry>, owner: string, kind: RecordType, steps: nat, list: seq<nat>)
    ensures Resolve(entries, owner, kind, steps) == Some(Decide(kind, list))
       <==> exists k :: AnswersChain(entries, owner, kind, steps, list, k)
  {
    if k :| AnswersChain(entries, owner, kind, steps, list, k) {
      ChainDecides(entries, owner, kind, steps, list, k);
    }
    if Resolve(entries, owner, kind, steps) == Some(Decide(kind, list)) {
      var k := DecidedFollowsChain(entries, owner, kind, steps);
    }
  }

  // ----- Alias cycles -----

  lemma {:induction false} ChainCompose(entries: seq<Entry>, owner: string, a: nat, b: nat)
    requires Chain(entries, owner, a).Some?
    ensures Chain(entries, owner, a + b) == Chain(entries, Chain(entries, owner, a).value, b)
    decreases a
  {
    if a > 0 {
      ChainCompose(entries, FirstAlias(entries, owner).value, a - 1, b);
    }
  }

  /** On a cycle without addresses every chain position repeats an earlier one. */
  lemma {:induction false} CycleRepeats(entries: seq<Entry>, owner: string, i: nat, j: nat, k: nat)
    requires i < j && Chain(entries, owner, i).Some? && Chain(entries, owner, j) == Chain(entries, owner, i)
    requires forall m: nat :: m < j ==>
               Chain(entries, owner, m).Some? && AddressesOf(entries, Chain(entries, owner, m).value) == []
    ensures Chain(entries, owner, k).Some? && AddressesOf(entries, Chain(entries, owner, k).value) == []
    decreases k
  {
    if k >= j {
      ChainCompose(entries, owner, j, k - j);
      ChainCompose(entries, owner, i, k - j);
      CycleRepeats(entries, owner, i, j, i + (k - j));
    }
  }

  lemma {:induction false} EndlessChain(entries: seq<Entry>, owner: string, kind: RecordType, steps: nat)
    requires forall k: nat ::
               Chain(entries, owner, k).Some? && AddressesOf(entries, Chain(entries, owner, k).value) == []
    ensures Resolve(entries, owner, kind, steps) == None
    decreases steps
  {
    if steps > 0 {
      assert Chain(entries, owner, 0) == Some(owner);
      assert Chain(entries, owner, 1).Some?;
      var target := FirstAlias(entries, owner).value;
      forall k: nat
        ensures Chain(entries, target, k).Some? && AddressesOf(entries, Chain(entries, target, k).value) == []
      {
        assert Chain(entries, owner, k + 1) == Chain(entries, target, k);
      }
      EndlessChain(entries, target, kind, steps - 1);
    }
  }

  /** An alias cycle that meets no address is never decided. */
  lemma AliasCycleUndecided(entries: seq<Entry>, owner: string, kind: RecordType, steps: nat, i: nat, j: nat)
    requires i < j && Chain(entries, owner, i).Some? && Chain(entries, owner, j) == Chain(entries, owner, i)
    requires forall m: nat :: m < j ==>
               Chain(entries, owner, m).Some? && AddressesOf(entries, Chain(entries, owner, m).value) == []
    ensures Resolve(entries, owner, kind, steps) == None
  {
    forall k: nat ensures Chain(entries, owner, k).Some? && AddressesOf(entries, Chain(entries, owner, k).value) == [] {
      CycleRepeats(entries, owner, i, j, k);
    }
    EndlessChain(entries, owner, kind, steps);
  }

  /** A packet decides an address answer exactly when it is an untruncated,
      error-free reply to the query whose records can all be read and whose
      alias chain from the question leads within 15 steps to a first name with
      usable addresses; the answer is the ascending list of exactly those. */
  lemma PacketDecidesExactly(packet: seq<byte>, id: nat, name: string, kind: RecordType, list: seq<nat>)
    ensures PacketAnswer(packet, id, name, kind) == Some(Decide(kind, list))
       <==> && Related(packet, id, name, kind)
            && (Word(packet, 2).value / 0x200) % 2 == 0 && Word(packet, 2).value % 0x10 == 0
            && AnswerEntries(packet, kind).Some?
            && exists k ::
                 AnswersChain(AnswerEntries(packet, kind).value, Normalize(name).value, kind, CHAIN_LIMIT, list, k)
  {
    hide Related, AnswerEntries, Resolve, Normalize, Decide, AnswersChain;
    if Related(packet, id, name, kind) { RelatedReads(packet, id, name, kind); }
    DecideIsDecided(kind, list);
    if Related(packet, id, name, kind) && AnswerEntries(packet, kind).Some? {
      ResolveExact(AnswerEntries(packet, kind).value, Normalize(name).value, kind, CHAIN_LIMIT, list);
    }
  }

  lemma RelatedReads(packet: seq<byte>, id: nat, name: string, kind: RecordType)
    requires Related(packet, id, name, kind)
    ensures Word(packet, 2).Some? && NameAt(packet, 12).Some? && Normalize(name).Some?
  {
  }

  lemma DecideIsDecided(kind: RecordType, list: seq<nat>)
    ensures Decide(kind, list).Decided? && Decide(kind, list).addresses == list
  {
  }

  // ----- Longer packets -----

  /** `other` is `packet` with further octets behind it. */
  predicate Extends(packet: seq<byte>, other: seq<byte>) {
    |packet| <= |other| && forall k :: 0 <= k < |packet| ==> other[k] == packet[k]
  }

  lemma WordExtends(packet: seq<byte>, other: seq<byte>, at: nat)
    requires Extends(packet, other) && Word(packet, at).Some?
    ensures Word(other, at) == Word(packet, at)
  {
  }

  lemma HopExtends(packet: seq<byte>, other: seq<byte>, position: nat)
    requires Extends(packet, other) && !HopAt(packet, position).Bad?
    ensures HopAt(other, position) == HopAt(packet, position)
    ensures LabelBytes(other, position) == LabelBytes(packet, position)
    ensures LabelText(other, position) == LabelText(packet, position)
  {
  }

  lemma {:induction false} FollowExtends(packet: seq<byte>, other: seq<byte>, position: nat, limit: nat)
    requires Extends(packet, other) && Follow(packet, position, limit).Some?
    ensures Follow(other, position, limit) == Follow(packet, position, limit)
    decreases limit
  {
    HopExtends(packet, other, position);
    match HopAt(packet, position)
    case Label(size) => FollowExtends(packet, other, position + 1 + size, limit - 1);
    case Pointer(target) => FollowExtends(packet, other, target, limit - 1);
    case Root =>
  }

  lemma {:induction false} TrailExtends(packet: seq<byte>, other: seq<byte>, trail: seq<nat>)
    requires Extends(packet, other) && Trail(packet, trail)
    ensures Labels(other, trail) == Labels(packet, trail) && Length(other, trail) == Length(packet, trail)
    ensures Ascii(other, trail) <==> Ascii(packet, trail)
    ensures After(other, trail) == After(packet, trail)
    decreases |trail|
  {
    if |trail| > 1 {
      TrailTail(packet, trail);
      HopExtends(packet, other, trail[0]);
      TrailExtends(packet, other, trail[1..]);
    } else {
      HopExtends(packet, other, trail[0]);
      assert trail[1..] == [];
    }
    hide HopAt, LabelBytes, LabelText, AllAscii, Trail;
  }

  lemma NameWithinExtends(packet: seq<byte>, other: seq<byte>, start: nat, limit: nat)
    requires Extends(packet, other) && NameWithin(packet, start, limit).Some?
    ensures NameWithin(other, start, limit) == NameWithin(packet, start, limit)
  {
    FollowExtends(packet, other, start, limit);
    FollowIsTrail(packet, start, limit);
    TrailExtends(packet, other, Follow(packet, start, limit).value);
  }

  lemma NameExtends(packet: seq<byte>, other: seq<byte>, start: nat)
    requires Extends(packet, other) && NameAt(packet, start).Some?
    ensures NameAt(other, start) == NameAt(packet, start)
  {
    hide NameWithin;
    NameWithinExtends(packet, other, start, HOP_LIMIT);
  }

  lemma {:induction false} ValueExtends(packet: seq<byte>, other: seq<byte>, from: nat, size: nat)
    requires Extends(packet, other) && from + size <= |packet|
    ensures Value(other, from, size) == Value(packet, from, size)
  {
    if size > 0 { ValueExtends(packet, other, from, size - 1); }
  }

  lemma EntryExtends(packet: seq<byte>, other: seq<byte>, cursor: nat, kind: RecordType)
    requires Extends(packet, other) && EntryAt(packet, cursor, kind).Some?
    ensures EntryAt(other, cursor, kind) == EntryAt(packet, cursor, kind)
  {
    hide NameAt, Value, Word;
    NameExtends(packet, other, cursor);
    var at := NameAt(packet, cursor).value.1;
    WordExtends(packet, other, at);
    WordExtends(packet, other, at + 2);
    WordExtends(packet, other, at + 8);
    var data, length := at + 10, Word(packet, at + 8).value;
    if Word(packet, at + 2).value == 1 && Word(packet, at).value == kind.Code() {
      ValueExtends(packet, other, data, length);
    } else if Word(packet, at + 2).value == 1 && Word(packet, at).value == 5 {
      NameExtends(packet, other, data);
    }
  }

  lemma {:induction false} EntriesExtend(packet: seq<byte>, other: seq<byte>, cursor: nat, count: nat, kind: RecordType)
    requires Extends(packet, other) && Entries(packet, cursor, count, kind).Some?
    ensures Entries(other, cursor, count, kind) == Entries(packet, cursor, count, kind)
    decreases count
  {
    hide EntryAt;
    if count > 0 {
      EntryExtends(packet, other, cursor, kind);
      EntriesExtend(packet, other, EntryAt(packet, cursor, kind).value.1, count - 1, kind);
    }
  }

  lemma RelatedExtends(packet: seq<byte>, other: seq<byte>, id: nat, name: string, kind: RecordType)
    requires Extends(packet, other) && Related(packet, id, name, kind)
    ensures Related(other, id, name, kind) && NameAt(other, 12) == NameAt(packet, 12)
    ensures Word(other, 2) == Word(packet, 2)
  {
    hide NameAt, Word, Normalize;
    WordExtends(packet, other, 0);
    WordExtends(packet, other, 2);
    WordExtends(packet, other, 4);
    NameExtends(packet, other, 12);
    var at := NameAt(packet, 12).value.1;
    WordExtends(packet, other, at);
    WordExtends(packet, other, at + 2);
  }

  /** Octets appended to a packet never change a verdict already reached. */
  lemma AppendingKeepsVerdict(packet: seq<byte>, other: seq<byte>, id: nat, name: string, kind: RecordType)
    requires Extends(packet, other) && PacketAnswer(packet, id, name, kind).Some?
    ensures PacketAnswer(other, id, name, kind) == PacketAnswer(packet, id, name, kind)
  {
    hide Related, Resolve, Normalize, NameAt, Entries, Word;
    RelatedExtends(packet, other, id, name, kind);
    RelatedReads(packet, id, name, kind);
    var flags := Word(packet, 2).value;
    if (flags / 0x200) % 2 == 0 && flags % 0x10 == 0 {
      WordExtends(packet, other, 6);
      EntriesExtend(packet, other, NameAt(packet, 12).value.1 + 4, Word(packet, 6).value, kind);
    }
  }

  // ----- The parsing loops -----

  function RecordOf(e: Entry): seq<(string, nat)> {
    if e.Address? then [(e.owner, e.address)] else []
  }

  function AliasOf(e: Entry): seq<(string, string)> {
    if e.Alias? then [(e.owner, e.target)] else []
  }

  function RecordsOf(entries: seq<Entry>): seq<(string, nat)> {
    if entries == [] then [] else RecordOf(entries[0]) + RecordsOf(entries[1..])
  }

  function AliasesOf(entries: seq<Entry>): seq<(string, string)> {
    if entries == [] then [] else AliasOf(entries[0]) + AliasesOf(entries[1..])
  }

  lemma {:induction false} VectorsAppend(entries: seq<Entry>, e: Entry)
    ensures RecordsOf(entries + [e]) == RecordsOf(entries) + RecordOf(e)
    ensures AliasesOf(entries + [e]) == AliasesOf(entries) + AliasOf(e)
  {
    hide RecordOf, AliasOf, RecordsOf, AliasesOf;
    if entries == [] {
      EmptyVectors();
      VectorsHead(e, []);
      assert [] + [e] == [e] + [];
    } else {
      var first, rest := entries[0], entries[1..];
      VectorsAppend(rest, e);
      VectorsHead(first, rest);
      VectorsHead(first, rest + [e]);
      assert [first] + rest == entries && [first] + (rest + [e]) == entries + [e];
      Regroup(RecordOf(first), RecordsOf(rest), RecordOf(e));
      Regroup(AliasOf(first), AliasesOf(rest), AliasOf(e));
    }
  }

  lemma VectorsHead(first: Entry, rest: seq<Entry>)
    ensures RecordsOf([first] + rest) == RecordOf(first) + RecordsOf(rest)
    ensures AliasesOf([first] + rest) == AliasOf(first) + AliasesOf(rest)
  {
    assert ([first] + rest)[1..] == rest;
  }

  function Matching(records: seq<(string, nat)>, owner: string): seq<nat> {
    if records == [] then []
    else (if records[0].0 == owner then [records[0].1] else []) + Matching(records[1..], owner)
  }

  function Lookup(aliases: seq<(string, string)>, owner: string): Option<string> {
    if aliases == [] then None
    else if aliases[0].0 == owner then Some(aliases[0].1)
    else Lookup(aliases[1..], owner)
  }

  lemma {:induction false} VectorsAgree(entries: seq<Entry>, owner: string)
    ensures Matching(RecordsOf(entries), owner) == AddressesOf(entries, owner)
    ensures Lookup(AliasesOf(entries), owner) == FirstAlias(entries, owner)
    ensures AliasesOf(entries) != [] <==> exists e <- entries :: e.Alias?
  {
    if entries != [] {
      VectorsAgree(entries[1..], owner);
      assert entries == [entries[0]] + entries[1..];
      var records, aliases := RecordsOf(entries[1..]), AliasesOf(entries[1..]);
      match entries[0]
      case Address(o, a) =>
        assert ([(o, a)] + records)[1..] == records;
        assert AliasesOf(entries) == aliases;
      case Alias(o, t) =>
        assert ([(o, t)] + aliases)[1..] == aliases;
        assert RecordsOf(entries) == records;
        assert entries[0] in entries;
      case Other =>
        assert RecordsOf(entries) == records && AliasesOf(entries) == aliases;
    }
  }

  lemma EmptyVectors()
    ensures RecordsOf([]) == [] && AliasesOf([]) == []
  {
  }

  /** Reads the answer records into the vectors of addresses and of aliases. */
  method ReadEntries(packet: seq<byte>, start: nat, count: nat, kind: RecordType)
    returns (ok: bool, records: seq<(string, nat)>, aliases: seq<(string, string)>)
    ensures ok <==> Entries(packet, start, count, kind).Some?
    ensures ok ==> var entries := Entries(packet, start, count, kind).value;
              records == RecordsOf(entries) && aliases == AliasesOf(entries)
  {
    hide NameAt, Value, Word, EntryAt, RecordsOf, AliasesOf;
    records, aliases := [], [];
    var cursor: nat := start;
    ghost var seen: seq<Entry> := [];
    assert forall rest: seq<Entry> :: seen + rest == rest;
    EmptyVectors();
    for i := 0 to count
      invariant Entries(packet, start, count, kind)
             == match Entries(packet, cursor, count - i, kind) case None => None case Some(rest) => Some(seen + rest)
      invariant records == RecordsOf(seen) && aliases == AliasesOf(seen)
    {
      var entry := EntryAt(packet, cursor, kind);
      if entry.None? { return false, records, aliases; }
      records := records + RecordOf(entry.value.0);
      aliases := aliases + AliasOf(entry.value.0);
      VectorsAppend(seen, entry.value.0);
      if Entries(packet, entry.value.1, count - i - 1, kind).Some? {
        ghost var rest := Entries(packet, entry.value.1, count - i - 1, kind).value;
        assert seen + ([entry.value.0] + rest) == seen + [entry.value.0] + rest;
      }
      seen := seen + [entry.value.0];
      cursor := entry.value.1;
    }
    assert seen + [] == seen;
    ok := true;
  }

  method FindAlias(aliases: seq<(string, string)>, owner: string) returns (k: nat)
    ensures Lookup(aliases, owner) == if k < |aliases| then Some(aliases[k].1) else None
  {
    k := 0;
    while k < |aliases| && aliases[k].0 != owner
      invariant k <= |aliases| && Lookup(aliases[k..], owner) == Lookup(aliases, owner)
    {
      assert aliases[k..][1..] == aliases[k + 1..];
      k := k + 1;
    }
  }

  /** Follows the alias chain through the collected vectors. */
  method FollowChain(ghost entries: seq<Entry>, records: seq<(string, nat)>, aliases: seq<(string, string)>,
                     question: string, kind: RecordType, limit: nat) returns (r: Option<Verdict>)
    requires records == RecordsOf(entries) && aliases == AliasesOf(entries)
    ensures r == Resolve(entries, question, kind, limit)
  {
    hide AddressesOf, FirstAlias, RecordsOf, AliasesOf, Matching, Lookup, SortDedup;
    var owner := question;
    for i := 0 to limit
      invariant Resolve(entries, question, kind, limit) == Resolve(entries, owner, kind, limit - i)
    {
      VectorsAgree(entries, owner);
      var addresses := Matching(records, owner);
      if addresses != [] {
        if exists a <- addresses :: !Usable(kind, a) { return None; }
        return Some(Decide(kind, SortDedup(addresses)));
      }
      var k := FindAlias(aliases, owner);
      if k < |aliases| {
        owner := aliases[k].1;
      } else if aliases == [] {
        return Some(NoData);
      } else {
        return Some(Unknown);
      }
    }
    return None;
  }

  /** `parse_dns_packet`. */
  method ParseDnsPacket(packet: seq<byte>, id: nat, name: string, kind: RecordType) returns (r: Option<Verdict>)
    ensures r == PacketAnswer(packet, id, name, kind)
  {
    hide Resolve, Normalize, NameAt, Entries, Word;
    var flags := Word(packet, 2);
    if flags.None? || Word(packet, 0) != Some(id) || flags.value / 0x800 != 0x10 || Word(packet, 4) != Some(1) {
      return None;
    }
    var question, at := ReadName(packet, 12);
    if question.None? || Normalize(name).None? || question.value != Normalize(name).value
       || Word(packet, at) != Some(kind.Code()) || Word(packet, at + 2) != Some(1) {
      return None;
    }
    if (flags.value / 0x200) % 2 == 1 { return Some(Unsupported); }
    if flags.value % 0x10 == 3 { return Some(NxDomain); }
    if flags.value % 0x10 != 0 { return Some(Unknown); }
    var count := Word(packet, 6);
    if count.None? || count.value > RECORD_LIMIT { return None; }
    var ok, records, aliases := ReadEntries(packet, at + 4, count.value, kind);
    if !ok { return None; }
    ghost var entries := Entries(packet, at + 4, count.value, kind).value;
    r := FollowChain(entries, records, aliases, question.value, kind, CHAIN_LIMIT);
  }
}
