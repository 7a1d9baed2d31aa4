/** Replies as a name server writes them, and what the parser makes of them. */
module DnsReply {
  import opened Common
  import opened Strings
  import opened DnsName
  import opened DnsStep
  import opened DnsQuery
  import opened DnsAnswer
  import opened DnsAddress

  // ----- Octets at a position -----

  lemma HoldsParts(packet: seq<byte>, at: nat, a: seq<byte>, b: seq<byte>)
    requires Holds(packet, at, a + b)
    ensures Holds(packet, at, a) && Holds(packet, at + |a|, b)
  {
    assert forall k :: 0 <= k < |a| ==> (a + b)[k] == a[k];
    assert forall k :: 0 <= k < |b| ==> (a + b)[|a| + k] == b[k];
  }

  lemma WordHeld(packet: seq<byte>, at: nat, n: nat)
    requires Holds(packet, at, WordBytes(n)) && n < 0x1_0000
    ensures Word(packet, at) == Some(n)
  {
    assert packet[at] == WordBytes(n)[0] && packet[at + 1] == WordBytes(n)[1];
  }

  // ----- Names -----

  /** A name on the wire: spelled out, or a pointer to the name of the question. */
  datatype Naming = Spelled(name: string) | Question

  predicate GoodName(name: string) {
    |name| <= 253 && forall k :: 0 <= k < |Split(name, '.')| ==> PlainLabel(Split(name, '.')[k])
  }

  function NamingBytes(n: Naming): seq<byte> {
    match n
    case Spelled(name) => Encode(Split(name, '.')) + [0]
    case Question => [0xc0, 12]
  }

  function Named(n: Naming, question: string): string {
    match n
    case Spelled(name) => Lower(name)
    case Question => question
  }

  lemma {:induction false} EncodesHeld(packet: seq<byte>, at: nat, labels: seq<string>)
    requires Holds(packet, at, Encode(labels) + [0])
    requires forall k :: 0 <= k < |labels| ==> PlainLabel(labels[k])
    ensures Encodes(packet, at, labels)
    decreases labels
  {
    hide PlainLabel, Holds;
    if labels == [] {
      LastHeld(packet, at);
    } else {
      var part := labels[0];
      var first: seq<byte> := [|part| % 256] + Octets(part);
      var rest: seq<byte> := Encode(labels[1..]) + [0];
      assert Encode(labels) + [0] == first + rest;
      HoldsParts(packet, at, first, rest);
      PartHeld(packet, at, part);
      EncodesHeld(packet, at + |first|, labels[1..]);
    }
  }

  lemma LastHeld(packet: seq<byte>, at: nat)
    requires Holds(packet, at, Encode([]) + [0])
    ensures Encodes(packet, at, [])
  {
    assert (Encode([]) + [0])[0] == 0;
  }

  lemma PartHeld(packet: seq<byte>, at: nat, part: string)
    requires PlainLabel(part) && Holds(packet, at, [|part| % 256] + Octets(part))
    ensures at < |packet| && packet[at] == |part| && Matches(packet, at + 1, part) && |Octets(part)| == |part|
  {
    var first: seq<byte> := [|part| % 256] + Octets(part);
    assert packet[at] == first[0];
    forall k | 0 <= k < |part| ensures packet[at + 1 + k] == part[k] as int {
      assert packet[at + (k + 1)] == first[k + 1];
    }
  }

  /** A spelled name reads back in lower case. */
  lemma SpelledReads(packet: seq<byte>, at: nat, name: string, limit: nat)
    requires GoodName(name) && Holds(packet, at, Encode(Split(name, '.')) + [0])
    requires limit > |Split(name, '.')|
    ensures NameWithin(packet, at, limit) == Some((Lower(name), at + |name| + 2))
  {
    hide Holds, Encode, Encodes, Split, Join, LowerAll, PlainLabel, Labels, Length, Ascii, After, Follow, EncodedLength;
    var labels := Split(name, '.');
    EncodesHeld(packet, at, labels);
    ReadsLabels(packet, at, labels, limit);
    SplitLength(name);
    SplitLower(name);
    JoinSplit(Lower(name));
  }

  /** The question's name stands behind the header, and a name on the wire reads
      as what it names. */
  lemma NamingReads(packet: seq<byte>, question: string, at: nat, n: Naming)
    requires GoodName(question) && |Split(question, '.')| < 127 && Lower(question) == question
    requires Holds(packet, 12, Encode(Split(question, '.')) + [0])
    requires n.Spelled? ==> GoodName(n.name)
    requires Holds(packet, at, NamingBytes(n))
    ensures NameAt(packet, at) == Some((Named(n, question), at + |NamingBytes(n)|))
  {
    hide NameWithin, Encode, Split, PlainLabel, Holds, EncodedLength;
    match n
    case Spelled(name) =>
      FewLabels(name);
      SpelledReads(packet, at, name, HOP_LIMIT);
    case Question =>
      PointerHeld(packet, at);
      SpelledReads(packet, 12, question, 127);
      PointerReads(packet, at, 12, 127);
  }

  lemma PointerHeld(packet: seq<byte>, at: nat)
    requires Holds(packet, at, [0xc0, 12])
    ensures at + 1 < |packet| && packet[at] == 0xc0 && packet[at + 1] == 12
  {
    var b: seq<byte> := [0xc0, 12];
    assert packet[at] == b[0] && packet[at + 1] == b[1];
  }

  lemma FewLabels(name: string)
    requires GoodName(name)
    ensures |Split(name, '.')| <= 127 && |Encode(Split(name, '.'))| == |name| + 1
  {
    hide Split, EncodedLength, Encode, PlainLabel;
    SplitLength(name);
    PlainNotEmpty(name);
    LabelsFit(Split(name, '.'));
    EncodeLength(Split(name, '.'));
  }

  lemma PlainNotEmpty(name: string)
    requires GoodName(name)
    ensures forall k :: 0 <= k < |Split(name, '.')| ==> |Split(name, '.')[k]| >= 1
  {
  }

  // ----- Records -----

  /** A resource record (RFC 1035 section 3.2.1): an address of the queried type,
      an alias, or anything else. */
  datatype Record =
    | AddressRecord(owner: Naming, ttl: nat, octets: seq<byte>)
    | AliasRecord(owner: Naming, ttl: nat, target: Naming)
    | OtherRecord(owner: Naming, ttl: nat, code: nat, family: nat, octets: seq<byte>)

  function TypeOf(r: Record, kind: RecordType): nat {
    match r
    case AddressRecord(_, _, _) => if kind.A? then 1 else 28
    case AliasRecord(_, _, _) => 5
    case OtherRecord(_, _, code, _, _) => code
  }

  function ClassOf(r: Record): nat {
    if r.OtherRecord? then r.family else 1
  }

  function DataOf(r: Record): seq<byte> {
    if r.AliasRecord? then NamingBytes(r.target) else r.octets
  }

  predicate GoodNaming(n: Naming) {
    n.Spelled? ==> GoodName(n.name)
  }

  predicate GoodRecord(r: Record, kind: RecordType) {
    && GoodNaming(r.owner) && r.ttl < 0x1_0000_0000
    && match r
       case AddressRecord(_, _, octets) => |octets| == SizeOf(kind)
       case AliasRecord(_, _, target) => GoodNaming(target)
       case OtherRecord(_, _, code, family, octets) =>
         && code < 0x1_0000 && family < 0x1_0000 && |octets| < 0x1_0000
         && !(family == 1 && code in {5, if kind.A? then 1 else 28})
  }

  /** Type, class, time to live and length of the data. */
  function FixedBytes(r: Record, kind: RecordType): seq<byte> {
    WordBytes(TypeOf(r, kind)) + WordBytes(ClassOf(r)) + WordBytes(r.ttl / 0x1_0000) + WordBytes(r.ttl % 0x1_0000)
    + WordBytes(|DataOf(r)|)
  }

  function RecordBytes(r: Record, kind: RecordType): seq<byte> {
    NamingBytes(r.owner) + (FixedBytes(r, kind) + DataOf(r))
  }

  function RecordsBytes(records: seq<Record>, kind: RecordType): seq<byte> {
    if records == [] then [] else RecordBytes(records[0], kind) + RecordsBytes(records[1..], kind)
  }

  /** What a record says: an owner with the number of its octets, or with the
      name it is an alias of. */
  function Meaning(r: Record, question: string): Entry {
    match r
    case AddressRecord(owner, _, octets) => Address(Named(owner, question), Number(octets, |octets|))
    case AliasRecord(owner, _, target) => Alias(Named(owner, question), Named(target, question))
    case OtherRecord(_, _, _, _, _) => Other
  }

  function Meanings(records: seq<Record>, question: string): (entries: seq<Entry>)
    ensures |entries| == |records|
    ensures forall k :: 0 <= k < |records| ==> entries[k] == Meaning(records[k], question)
  {
    seq(|records|, k requires 0 <= k < |records| => Meaning(records[k], question))
  }

  /** The packet holds the question's name, lower-case and short enough to be
      pointed at, behind the header. */
  predicate Asks(packet: seq<byte>, question: string) {
    && GoodName(question) && |Split(question, '.')| < 127 && Lower(question) == question
    && Holds(packet, 12, Encode(Split(question, '.')) + [0])
  }

  /** The parts of the record fit their fields. */
  predicate Fits(r: Record, kind: RecordType) {
    && GoodNaming(r.owner) && r.ttl < 0x1_0000_0000
    && TypeOf(r, kind) < 0x1_0000 && ClassOf(r) < 0x1_0000 && |DataOf(r)| < 0x1_0000
  }

  lemma FixedHeld(packet: seq<byte>, at: nat, r: Record, kind: RecordType)
    requires Fits(r, kind)
    requires Holds(packet, at, FixedBytes(r, kind))
    ensures Word(packet, at) == Some(TypeOf(r, kind)) && Word(packet, at + 2) == Some(ClassOf(r))
    ensures Word(packet, at + 8) == Some(|DataOf(r)|) && |FixedBytes(r, kind)| == 10
  {
    hide WordBytes, Word, Holds, DataOf;
    WordsAreTwo(TypeOf(r, kind));
    WordsAreTwo(ClassOf(r));
    WordsAreTwo(r.ttl / 0x1_0000);
    WordsAreTwo(r.ttl % 0x1_0000);
    WordsAreTwo(|DataOf(r)|);
    var a, b, c, d, e := WordBytes(TypeOf(r, kind)), WordBytes(ClassOf(r)), WordBytes(r.ttl / 0x1_0000),
      WordBytes(r.ttl % 0x1_0000), WordBytes(|DataOf(r)|);
    HoldsParts(packet, at, a + b + c + d, e);
    HoldsParts(packet, at, a + b + c, d);
    HoldsParts(packet, at, a + b, c);
    HoldsParts(packet, at, a, b);
    WordHeld(packet, at, TypeOf(r, kind));
    WordHeld(packet, at + 2, ClassOf(r));
    WordHeld(packet, at + 8, |DataOf(r)|);
  }

  lemma WordsAreTwo(n: nat)
    ensures |WordBytes(n)| == 2
  {
  }

  lemma GoodFits(r: Record, kind: RecordType)
    requires GoodRecord(r, kind)
    ensures Fits(r, kind)
  {
    hide Encode, Split, PlainLabel;
    if r.AliasRecord? && r.target.Spelled? { FewLabels(r.target.name); }
  }

  /** The fields of a record, as the parser meets them. */
  lemma RecordHeld(packet: seq<byte>, question: string, at: nat, r: Record, kind: RecordType)
    requires Asks(packet, question) && Fits(r, kind)
    requires Holds(packet, at, RecordBytes(r, kind))
    ensures var fixed := at + |NamingBytes(r.owner)|;
            && NameAt(packet, at) == Some((Named(r.owner, question), fixed))
            && Word(packet, fixed) == Some(TypeOf(r, kind)) && Word(packet, fixed + 2) == Some(ClassOf(r))
            && Word(packet, fixed + 8) == Some(|DataOf(r)|) && Holds(packet, fixed + 10, DataOf(r))
            && fixed + 10 + |DataOf(r)| <= |packet|
            && |RecordBytes(r, kind)| == |NamingBytes(r.owner)| + 10 + |DataOf(r)|
  {
    hide NameAt, Word, Holds, NamingBytes, Named, GoodName, FixedBytes, Encode, Split, DataOf, TypeOf, ClassOf;
    var fixed := at + |NamingBytes(r.owner)|;
    HoldsParts(packet, at, NamingBytes(r.owner), FixedBytes(r, kind) + DataOf(r));
    HoldsParts(packet, fixed, FixedBytes(r, kind), DataOf(r));
    NamingReads(packet, question, at, r.owner);
    FixedHeld(packet, fixed, r, kind);
    DataHeld(packet, fixed + 10, DataOf(r));
  }

  /** A record reads as what it says, with the cursor behind it. */
  lemma RecordReads(packet: seq<byte>, question: string, at: nat, r: Record, kind: RecordType)
    requires Asks(packet, question) && GoodRecord(r, kind)
    requires Holds(packet, at, RecordBytes(r, kind))
    ensures EntryAt(packet, at, kind) == Some((Meaning(r, question), at + |RecordBytes(r, kind)|))
  {
    hide NameAt, Word, Holds, NamingBytes, Named, GoodName, Number, Value, RecordBytes, Encode, Split;
    GoodFits(r, kind);
    RecordHeld(packet, question, at, r, kind);
    var data := at + |NamingBytes(r.owner)| + 10;
    match r
    case AddressRecord(_, _, octets) => ValueIsNumber(packet, data, octets, |octets|);
    case AliasRecord(_, _, target) => NamingReads(packet, question, data, target);
    case OtherRecord(_, _, _, _, _) =>
  }

  /** An address of another size, and an alias with octets behind its target,
      make the reply unreadable. */
  lemma MisfitRefused(packet: seq<byte>, question: string, at: nat, r: Record, kind: RecordType, target: Naming)
    requires Asks(packet, question) && Fits(r, kind) && Holds(packet, at, RecordBytes(r, kind))
    requires r.OtherRecord? && r.family == 1
    requires || (r.code == (if kind.A? then 1 else 28) && |r.octets| != SizeOf(kind))
             || (r.code == 5 && GoodNaming(target) && NamingBytes(target) < r.octets)
    ensures EntryAt(packet, at, kind) == None
  {
    hide NameAt, Word, Holds, NamingBytes, Named, GoodName, Number, Value, RecordBytes, Encode, Split;
    RecordHeld(packet, question, at, r, kind);
    if r.code == 5 {
      var data := at + |NamingBytes(r.owner)| + 10;
      assert r.octets == NamingBytes(target) + r.octets[|NamingBytes(target)|..];
      HoldsParts(packet, data, NamingBytes(target), r.octets[|NamingBytes(target)|..]);
      NamingReads(packet, question, data, target);
    }
  }

  lemma DataHeld(packet: seq<byte>, at: nat, octets: seq<byte>)
    requires Holds(packet, at, octets)
    ensures at + |octets| <= |packet|
  {
  }

  lemma {:induction false} RecordsRead(packet: seq<byte>, question: string, at: nat, records: seq<Record>,
                                       kind: RecordType)
    requires Asks(packet, question) && forall k :: 0 <= k < |records| ==> GoodRecord(records[k], kind)
    requires Holds(packet, at, RecordsBytes(records, kind))
    ensures Entries(packet, at, |records|, kind) == Some(Meanings(records, question))
    decreases |records|
  {
    hide Asks, GoodRecord, Holds, EntryAt, RecordBytes, Meaning;
    if records != [] {
      HoldsParts(packet, at, RecordBytes(records[0], kind), RecordsBytes(records[1..], kind));
      RecordReads(packet, question, at, records[0], kind);
      RecordsRead(packet, question, at + |RecordBytes(records[0], kind)|, records[1..], kind);
      assert Meanings(records, question) == [Meaning(records[0], question)] + Meanings(records[1..], question);
    }
  }

  // ----- The alias path -----

  /** The octets of the addresses that `owner` has. */
  function AddressesOwned(records: seq<Record>, question: string, owner: string): seq<seq<byte>> {
    if records == [] then []
    else
      (if records[0].AddressRecord? && Named(records[0].owner, question) == owner then [records[0].octets] else [])
      + AddressesOwned(records[1..], question, owner)
  }

  /** The names that `owner` is an alias of. */
  function AliasesOwned(records: seq<Record>, question: string, owner: string): seq<string> {
    if records == [] then []
    else
      (if records[0].AliasRecord? && Named(records[0].owner, question) == owner
       then [Named(records[0].target, question)] else [])
      + AliasesOwned(records[1..], question, owner)
  }

  /** The names met on the way from the question: without an address, the first
      alias of a name leads on. */
  predicate Path(records: seq<Record>, question: string, names: seq<string>) {
    && names != []
    && forall k :: 0 <= k < |names| - 1 ==>
         && AddressesOwned(records, question, names[k]) == []
         && AliasesOwned(records, question, names[k]) != []
         && AliasesOwned(records, question, names[k])[0] == names[k + 1]
  }

  function Numbers(data: seq<seq<byte>>): seq<nat> {
    if data == [] then [] else [Number(data[0], |data[0]|)] + Numbers(data[1..])
  }

  lemma MeaningsTail(records: seq<Record>, question: string)
    requires records != []
    ensures Meanings(records, question)[0] == Meaning(records[0], question)
    ensures Meanings(records, question)[1..] == Meanings(records[1..], question)
  {
    hide Meaning;
  }

  lemma {:induction false} OwnedMeans(records: seq<Record>, question: string, owner: string)
    ensures AddressesOf(Meanings(records, question), owner) == Numbers(AddressesOwned(records, question, owner))
    ensures var aliases := AliasesOwned(records, question, owner);
            FirstAlias(Meanings(records, question), owner) == if aliases == [] then None else Some(aliases[0])
    decreases |records|
  {
    hide Named, Number, Meanings, Numbers;
    if records == [] {
      NoNumbers();
      assert Meanings(records, question) == [];
    } else {
      MeaningsTail(records, question);
      OwnedMeans(records[1..], question, owner);
      var rest := AddressesOwned(records[1..], question, owner);
      assert [] + rest == rest;
      if records[0].AddressRecord? { NumbersHead(records[0].octets, rest); }
    }
  }

  lemma NoNumbers()
    ensures Numbers([]) == []
  {
  }

  lemma NumbersHead(first: seq<byte>, rest: seq<seq<byte>>)
    ensures Numbers([first] + rest) == [Number(first, |first|)] + Numbers(rest)
  {
    hide Number;
    assert ([first] + rest)[1..] == rest;
  }

  lemma {:induction false} AliasMeans(records: seq<Record>, question: string)
    ensures (exists e <- Meanings(records, question) :: e.Alias?) <==> exists r <- records :: r.AliasRecord?
    decreases |records|
  {
    hide Named, Number, Meanings;
    if records == [] {
      assert Meanings(records, question) == [];
    } else {
      MeaningsTail(records, question);
      AliasMeans(records[1..], question);
      var entries := Meanings(records, question);
      assert entries == [entries[0]] + entries[1..] && records == [records[0]] + records[1..];
    }
  }

  lemma {:induction false} PathResolves(
      records: seq<Record>, question: string, names: seq<string>, kind: RecordType, steps: nat)
    requires Path(records, question, names) && |names| <= steps
    ensures Resolve(Meanings(records, question), names[0], kind, steps)
         == Resolve(Meanings(records, question), names[|names| - 1], kind, steps + 1 - |names|)
    decreases |names|
  {
    hide Meanings, AddressesOf, FirstAlias, SortDedup, Decide, Usable, AddressesOwned, AliasesOwned;
    if |names| > 1 {
      OwnedMeans(records, question, names[0]);
      PathTail(records, question, names);
      PathResolves(records, question, names[1..], kind, steps - 1);
    }
  }

  lemma {:induction false} PathTooLong(
      records: seq<Record>, question: string, names: seq<string>, kind: RecordType, steps: nat)
    requires Path(records, question, names) && |names| > steps
    ensures Resolve(Meanings(records, question), names[0], kind, steps) == None
    decreases steps
  {
    hide Meanings, AddressesOf, FirstAlias, SortDedup, Decide, Usable, AddressesOwned, AliasesOwned;
    if steps > 0 {
      OwnedMeans(records, question, names[0]);
      PathTail(records, question, names);
      PathTooLong(records, question, names[1..], kind, steps - 1);
    }
  }

  lemma PathTail(records: seq<Record>, question: string, names: seq<string>)
    requires Path(records, question, names) && |names| > 1
    ensures Path(records, question, names[1..])
    ensures AddressesOwned(records, question, names[0]) == []
    ensures AliasesOwned(records, question, names[0]) != []
    ensures AliasesOwned(records, question, names[0])[0] == names[1]
  {
    hide AddressesOwned, AliasesOwned;
    assert names[0 + 1] == names[1];
  }

  // ----- Verdicts -----

  /** The list is the ascending one of the numbers of `data`, and the scope says
      whether these are local addresses. */
  ghost predicate Lists(kind: RecordType, data: seq<seq<byte>>, list: seq<nat>, scope: Scope)
    requires forall o <- data :: |o| == SizeOf(kind)
  {
    && Ascending(list) && (forall a :: a in list <==> a in Numbers(data))
    && (scope != Public <==> exists o <- data :: LocalOctets(kind, o))
    && (scope != Local <==> exists o <- data :: !LocalOctets(kind, o))
  }

  lemma {:induction false} NumbersIn(data: seq<seq<byte>>)
    ensures forall o <- data :: Number(o, |o|) in Numbers(data)
    ensures forall a <- Numbers(data) :: exists o <- data :: Number(o, |o|) == a
  {
    hide Number;
    if data != [] {
      NumbersIn(data[1..]);
      assert data == [data[0]] + data[1..];
      assert data[0] in data;
      assert forall o <- data[1..] :: o in data;
    }
  }

  lemma NumbersScope(kind: RecordType, data: seq<seq<byte>>)
    requires forall o <- data :: |o| == SizeOf(kind)
    ensures (exists a <- Numbers(data) :: IsLocal(kind, a)) <==> exists o <- data :: LocalOctets(kind, o)
    ensures (exists a <- Numbers(data) :: !IsLocal(kind, a)) <==> exists o <- data :: !LocalOctets(kind, o)
    ensures (exists a <- Numbers(data) :: !Usable(kind, a)) <==> exists o <- data :: !UsableOctets(kind, o)
  {
    hide IsLocal, Usable, LocalOctets, UsableOctets, Number, Numbers;
    NumbersIn(data);
    forall o | o in data
      ensures IsLocal(kind, Number(o, |o|)) <==> LocalOctets(kind, o)
      ensures Usable(kind, Number(o, |o|)) <==> UsableOctets(kind, o)
    {
      ScopeOfOctets(kind, o);
    }
  }

  lemma DecidesList(kind: RecordType, data: seq<seq<byte>>)
    requires data != [] && forall o <- data :: |o| == SizeOf(kind)
    ensures var verdict := Decide(kind, SortDedup(Numbers(data)));
            verdict.Decided? && Lists(kind, data, verdict.addresses, verdict.scope)
  {
    hide IsLocal, LocalOctets, Number, Numbers, SortDedup, Decide;
    NumbersScope(kind, data);
    NumbersNotEmpty(data);
    SameMembers(kind, SortDedup(Numbers(data)), Numbers(data));
  }

  lemma NumbersNotEmpty(data: seq<seq<byte>>)
    requires data != []
    ensures Numbers(data) != []
  {
  }

  /** Sorting changes no member, and the scope depends on the members only. */
  lemma SameMembers(kind: RecordType, list: seq<nat>, numbers: seq<nat>)
    requires numbers != [] && forall a :: a in list <==> a in numbers
    ensures var verdict := Decide(kind, list);
            && verdict.Decided? && verdict.addresses == list
            && (verdict.scope != Public <==> exists a <- numbers :: IsLocal(kind, a))
            && (verdict.scope != Local <==> exists a <- numbers :: !IsLocal(kind, a))
  {
    hide IsLocal;
    assert numbers[0] in list;
  }

  /** What the last name of the path is answered with. */
  ghost predicate Concludes(records: seq<Record>, question: string, owner: string, kind: RecordType,
                            verdict: Option<Verdict>)
    requires forall o <- AddressesOwned(records, question, owner) :: |o| == SizeOf(kind)
  {
    var data := AddressesOwned(records, question, owner);
    if data == [] then verdict == Some(if exists r <- records :: r.AliasRecord? then Unknown else NoData)
    else if exists o <- data :: !UsableOctets(kind, o) then verdict == None
    else
      verdict.Some? && verdict.value.Decided? && Lists(kind, data, verdict.value.addresses, verdict.value.scope)
  }

  lemma {:induction false} OwnedSized(records: seq<Record>, question: string, owner: string, kind: RecordType)
    requires forall k :: 0 <= k < |records| ==> GoodRecord(records[k], kind)
    ensures forall o <- AddressesOwned(records, question, owner) :: |o| == SizeOf(kind)
    decreases |records|
  {
    hide GoodName, GoodNaming, Named;
    if records != [] { OwnedSized(records[1..], question, owner, kind); }
  }

  lemma LastConcludes(records: seq<Record>, question: string, owner: string, kind: RecordType, steps: nat)
    requires forall o <- AddressesOwned(records, question, owner) :: |o| == SizeOf(kind)
    requires steps > 0 && PathEnds(records, question, owner)
    ensures Concludes(records, question, owner, kind, Resolve(Meanings(records, question), owner, kind, steps))
  {
    hide Meanings, AddressesOf, FirstAlias, SortDedup, Decide, Usable, UsableOctets, Lists, AddressesOwned,
      AliasesOwned;
    OwnedMeans(records, question, owner);
    AliasMeans(records, question);
    var data := AddressesOwned(records, question, owner);
    if data != [] {
      NumbersScope(kind, data);
      DecidesList(kind, data);
    }
  }

  // ----- Whole replies -----

  /** The flags of a reply (RFC 1035 section 4.1.1): response, query opcode, then
      authoritative, truncated, recursion desired, four bits, and the code. */
  datatype Flags = Flags(authoritative: bool, truncated: bool, desired: bool, middle: nat, code: nat)

  function FlagsWord(f: Flags): nat {
    0x8000 + (if f.authoritative then 0x400 else 0) + (if f.truncated then 0x200 else 0)
    + (if f.desired then 0x100 else 0) + 0x10 * f.middle + f.code
  }

  predicate GoodFlags(f: Flags) {
    f.middle < 16 && f.code < 16
  }

  lemma FlagsRead(f: Flags)
    requires GoodFlags(f)
    ensures var w := FlagsWord(f);
            w < 0x1_0000 && w / 0x800 == 0x10 && w % 0x10 == f.code && ((w / 0x200) % 2 == 1 <==> f.truncated)
  {
  }

  function HeaderBytes(id: nat, flags: nat, answers: nat, authority: nat, additional: nat): seq<byte> {
    WordBytes(id) + WordBytes(flags) + WordBytes(1) + WordBytes(answers) + WordBytes(authority) + WordBytes(additional)
  }

  /** Header, question and answer section. */
  function ReplyBytes(id: nat, f: Flags, authority: nat, additional: nat, question: string, kind: RecordType,
                      records: seq<Record>): seq<byte> {
    HeaderBytes(id, FlagsWord(f), |records|, authority, additional)
    + ((Encode(Split(question, '.')) + [0])
       + (WordBytes(if kind.A? then 1 else 28) + (WordBytes(1) + RecordsBytes(records, kind))))
  }

  lemma HeaderHeld(packet: seq<byte>, id: nat, flags: nat, answers: nat, authority: nat, additional: nat)
    requires id < 0x1_0000 && flags < 0x1_0000 && answers < 0x1_0000
    requires Holds(packet, 0, HeaderBytes(id, flags, answers, authority, additional))
    ensures |HeaderBytes(id, flags, answers, authority, additional)| == 12
    ensures Word(packet, 0) == Some(id) && Word(packet, 2) == Some(flags)
    ensures Word(packet, 4) == Some(1) && Word(packet, 6) == Some(answers)
  {
    hide WordBytes, Word, Holds;
    var a, b, c, d, e, f := WordBytes(id), WordBytes(flags), WordBytes(1), WordBytes(answers), WordBytes(authority),
      WordBytes(additional);
    WordsAreTwo(id);
    WordsAreTwo(flags);
    WordsAreTwo(1);
    WordsAreTwo(answers);
    WordsAreTwo(authority);
    WordsAreTwo(additional);
    HoldsParts(packet, 0, a + b + c + d + e, f);
    HoldsParts(packet, 0, a + b + c + d, e);
    HoldsParts(packet, 0, a + b + c, d);
    HoldsParts(packet, 0, a + b, c);
    HoldsParts(packet, 0, a, b);
    WordHeld(packet, 0, id);
    WordHeld(packet, 2, flags);
    WordHeld(packet, 4, 1);
    WordHeld(packet, 6, answers);
  }

  /** A packet that begins with the octets of a reply. */
  predicate IsReply(packet: seq<byte>, id: nat, f: Flags, authority: nat, additional: nat, question: string,
                    kind: RecordType, records: seq<Record>) {
    && id < 0x1_0000 && authority < 0x1_0000 && additional < 0x1_0000 && |records| < 0x1_0000 && GoodFlags(f)
    && (forall k :: 0 <= k < |records| ==> GoodRecord(records[k], kind))
    && Holds(packet, 0, ReplyBytes(id, f, authority, additional, question, kind, records))
  }

  lemma ReplyParts(packet: seq<byte>, id: nat, f: Flags, authority: nat, additional: nat, question: string,
                   kind: RecordType, records: seq<Record>)
    requires IsReply(packet, id, f, authority, additional, question, kind, records) && GoodName(question)
    ensures Word(packet, 0) == Some(id) && Word(packet, 2) == Some(FlagsWord(f))
    ensures Word(packet, 4) == Some(1) && Word(packet, 6) == Some(|records|)
    ensures var at := 12 + |question| + 2;
            && Holds(packet, 12, Encode(Split(question, '.')) + [0])
            && Word(packet, at) == Some(if kind.A? then 1 else 28) && Word(packet, at + 2) == Some(1)
            && Holds(packet, at + 4, RecordsBytes(records, kind))
  {
    hide WordBytes, Word, Holds, FlagsWord, RecordsBytes, Encode, Split, GoodName, GoodRecord, HeaderBytes;
    FlagsRead(f);
    var header := HeaderBytes(id, FlagsWord(f), |records|, authority, additional);
    var code := if kind.A? then 1 else 28;
    var name: seq<byte> := Encode(Split(question, '.')) + [0];
    var tail: seq<byte> := WordBytes(1) + RecordsBytes(records, kind);
    FewLabels(question);
    HoldsParts(packet, 0, header, name + (WordBytes(code) + tail));
    HeaderHeld(packet, id, FlagsWord(f), |records|, authority, additional);
    HoldsParts(packet, 12, name, WordBytes(code) + tail);
    QuestionHeld(packet, 12 + |name|, code, RecordsBytes(records, kind));
  }

  lemma QuestionHeld(packet: seq<byte>, at: nat, code: nat, answers: seq<byte>)
    requires code < 0x1_0000 && Holds(packet, at, WordBytes(code) + (WordBytes(1) + answers))
    ensures Word(packet, at) == Some(code) && Word(packet, at + 2) == Some(1) && Holds(packet, at + 4, answers)
  {
    hide WordBytes, Word, Holds;
    WordsAreTwo(code);
    WordsAreTwo(1);
    HoldsParts(packet, at, WordBytes(code), WordBytes(1) + answers);
    HoldsParts(packet, at + 2, WordBytes(1), answers);
    WordHeld(packet, at, code);
    WordHeld(packet, at + 2, 1);
  }

  /** A reply to the query for an accepted name is related to it. */
  lemma ReplyRelated(packet: seq<byte>, id: nat, f: Flags, authority: nat, additional: nat, asked: string,
                     kind: RecordType, records: seq<Record>)
    requires Normalize(asked).Some? && |Split(Normalize(asked).value, '.')| < 127
    requires IsReply(packet, id, f, authority, additional, Normalize(asked).value, kind, records)
    ensures var question := Normalize(asked).value;
            && Asks(packet, question) && NameAt(packet, 12) == Some((question, 12 + |question| + 2))
            && Related(packet, id, asked, kind) && Word(packet, 2) == Some(FlagsWord(f))
            && Word(packet, 6) == Some(|records|)
            && Holds(packet, 12 + |question| + 2 + 4, RecordsBytes(records, kind))
  {
    hide Normalize, NameWithin, Word, Holds, Split, Encode, PlainLabel, IsReply, RecordsBytes, FlagsWord;
    var question := Normalize(asked).value;
    AcceptedLabels(asked);
    LowerQuestion(question);
    ReplyGood(packet, id, f, authority, additional, question, kind, records);
    ReplyParts(packet, id, f, authority, additional, question, kind, records);
    SpelledReads(packet, 12, question, HOP_LIMIT);
    FlagsRead(f);
  }

  lemma ReplyGood(packet: seq<byte>, id: nat, f: Flags, authority: nat, additional: nat, question: string,
                  kind: RecordType, records: seq<Record>)
    requires IsReply(packet, id, f, authority, additional, question, kind, records)
    ensures GoodFlags(f) && forall k :: 0 <= k < |records| ==> GoodRecord(records[k], kind)
  {
    hide Holds, GoodRecord;
  }

  lemma LowerQuestion(question: string)
    requires LowerAll(Split(question, '.')) == Split(question, '.')
    ensures Lower(question) == question
  {
    hide Split, LowerAll, Lower;
    SplitLower(question);
    JoinSplit(question);
    JoinSplit(Lower(question));
  }

  /** What a reply is answered with, by its flags and the path from the question.
      Octets behind the answer section do not matter. */
  lemma ReplyDecides(packet: seq<byte>, id: nat, f: Flags, authority: nat, additional: nat, asked: string,
                     kind: RecordType, records: seq<Record>, names: seq<string>)
    requires Normalize(asked).Some? && |Split(Normalize(asked).value, '.')| < 127
    requires IsReply(packet, id, f, authority, additional, Normalize(asked).value, kind, records)
    requires var question := Normalize(asked).value;
             names != [] && names[0] == question && Path(records, question, names)
    ensures var question, verdict := Normalize(asked).value, PacketAnswer(packet, id, asked, kind);
            && (forall o <- AddressesOwned(records, question, names[|names| - 1]) :: |o| == SizeOf(kind))
            && (f.truncated ==> verdict == Some(Unsupported))
            && (!f.truncated && f.code == 3 ==> verdict == Some(NxDomain))
            && (!f.truncated && f.code !in {0, 3} ==> verdict == Some(Verdict.Unknown))
            && (!f.truncated && f.code == 0 && |records| > 64 ==> verdict == None)
            && (!f.truncated && f.code == 0 && |names| > 16 ==> verdict == None)
            && (!f.truncated && f.code == 0 && |records| <= 64 && |names| <= 16
                && PathEnds(records, question, names[|names| - 1]) ==>
                  Concludes(records, question, names[|names| - 1], kind, verdict))
  {
    hide Normalize, NameWithin, Word, Holds, Split, IsReply, RecordsBytes, Related, Resolve, Meanings, Concludes,
      Path, PathEnds, Entries, FlagsWord, AddressesOwned, AliasesOwned, GoodRecord, Asks, PacketAnswer;
    var question, owner := Normalize(asked).value, names[|names| - 1];
    ReplyRelated(packet, id, f, authority, additional, asked, kind, records);
    ReplyGood(packet, id, f, authority, additional, question, kind, records);
    OwnedSized(records, question, owner, kind);
    RecordsRead(packet, question, 12 + |question| + 2 + 4, records, kind);
    ReplyAnswer(packet, id, f, asked, kind, records);
    if |names| <= 16 {
      PathResolves(records, question, names, kind, CHAIN_LIMIT);
      if PathEnds(records, question, owner) {
        LastConcludes(records, question, owner, kind, CHAIN_LIMIT + 1 - |names|);
      }
    } else {
      PathTooLong(records, question, names, kind, CHAIN_LIMIT);
    }
  }

  /** The path goes no further: the name has an address or no alias. */
  predicate PathEnds(records: seq<Record>, question: string, owner: string) {
    AddressesOwned(records, question, owner) != [] || AliasesOwned(records, question, owner) == []
  }

  lemma ReplyAnswer(packet: seq<byte>, id: nat, f: Flags, asked: string, kind: RecordType, records: seq<Record>)
    requires Related(packet, id, asked, kind) && GoodFlags(f) && Normalize(asked).Some?
    requires Word(packet, 2) == Some(FlagsWord(f)) && Word(packet, 6) == Some(|records|)
    requires var question := Normalize(asked).value;
             && NameAt(packet, 12) == Some((question, 12 + |question| + 2))
             && Entries(packet, 12 + |question| + 2 + 4, |records|, kind) == Some(Meanings(records, question))
    ensures var question := Normalize(asked).value;
            PacketAnswer(packet, id, asked, kind)
            == if f.truncated then Some(Unsupported)
               else if f.code == 3 then Some(NxDomain)
               else if f.code != 0 then Some(Verdict.Unknown)
               else if |records| > 64 then None
               else Resolve(Meanings(records, question), question, kind, CHAIN_LIMIT)
  {
    hide Normalize, NameWithin, Word, Related, Resolve, Meanings, Entries, FlagsWord;
    FlagsRead(f);
  }
}
