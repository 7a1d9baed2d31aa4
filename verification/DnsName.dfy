/** DNS names: validation, the query writer and the name reader with compression
    pointers (sections 4.1.2 and 4.1.4 of RFC 1035). */
module DnsName {
  import opened Common
  import opened Strings

  type byte = x: int | 0 <= x < 256

  const HOP_LIMIT: nat := 128
  const LENGTH_LIMIT: nat := 254

  // ----- Text -----

  function Join(labels: seq<string>): string {
    if labels == [] then ""
    else if |labels| == 1 then labels[0]
    else labels[0] + "." + Join(labels[1..])
  }

  // ----- Which names are accepted -----

  predicate LabelChar(c: char) {
    'a' <= c <= 'z' || 'A' <= c <= 'Z' || '0' <= c <= '9' || c == '-'
  }

  predicate ValidLabel(part: string) {
    && 1 <= |part| <= 63
    && part[0] != '-' && part[|part| - 1] != '-'
    && forall k :: 0 <= k < |part| ==> LabelChar(part[k])
  }

  /** One decimal octet as the address parser of the standard library reads it. */
  predicate Octet(s: string) {
    && 1 <= |s| <= 3
    && (forall k :: 0 <= k < |s| ==> '0' <= s[k] <= '9')
    && (|s| > 1 ==> s[0] != '0')
    && (|s| == 3 ==> 100 * (s[0] as int - 48) + 10 * (s[1] as int - 48) + (s[2] as int - 48) <= 255)
  }

  /** An IP address; a textual IPv6 address has a colon and is no valid name anyway. */
  predicate IsAddress(name: string) {
    var parts := Split(name, '.');
    |parts| == 4 && Octet(parts[0]) && Octet(parts[1]) && Octet(parts[2]) && Octet(parts[3])
  }

  predicate Acceptable(name: string) {
    && 1 <= |name| <= 253
    && !IsAddress(name)
    && forall part <- Split(name, '.') :: ValidLabel(part)
  }

  /** `dns_name`: one trailing dot is dropped and the name is lower-cased. */
  function Normalize(input: string): Option<string> {
    var name := if input != "" && input[|input| - 1] == '.' then input[..|input| - 1] else input;
    if Acceptable(name) then Some(Lower(name)) else None
  }

  // ----- The query -----

  function TrimDots(s: string): string {
    if s != "" && s[|s| - 1] == '.' then TrimDots(s[..|s| - 1]) else s
  }

  function Octets(s: string): seq<byte> {
    seq(|s|, k requires 0 <= k < |s| => (s[k] as int) % 256)
  }

  function WordBytes(n: nat): seq<byte>
  {
    [(n / 256) % 256, n % 256]
  }

  function Encode(labels: seq<string>): seq<byte> {
    if labels == [] then [] else [|labels[0]| % 256] + Octets(labels[0]) + Encode(labels[1..])
  }

  function Words(words: seq<nat>): seq<byte> {
    if words == [] then [] else Words(words[..|words| - 1]) + WordBytes(words[|words| - 1])
  }

  function Header(id: nat): seq<byte> {
    Words([id, 0x0100, 1, 0, 0, 0])
  }

  function Query(id: nat, name: string, code: nat): seq<byte> {
    Header(id) + Encode(Split(TrimDots(name), '.')) + [0] + WordBytes(code) + WordBytes(1)
  }

  lemma {:induction false} EncodeAppend(labels: seq<string>, part: string)
    ensures Encode(labels + [part]) == Encode(labels) + [|part| % 256] + Octets(part)
  {
    if labels == [] {
      assert labels + [part] == [part];
    } else {
      EncodeAppend(labels[1..], part);
      assert (labels + [part])[1..] == labels[1..] + [part];
    }
  }

  lemma WordsLast(words: seq<nat>, i: nat)
    requires i < |words|
    ensures Words(words[..0]) == [] && Words(words[..i + 1]) == Words(words[..i]) + WordBytes(words[i])
  {
    hide WordBytes;
    assert words[..i + 1][..i] == words[..i];
  }

  lemma EncodeLast(labels: seq<string>, i: nat)
    requires i < |labels|
    ensures Encode(labels[..0]) == []
    ensures Encode(labels[..i + 1]) == Encode(labels[..i]) + [|labels[i]| % 256] + Octets(labels[i])
  {
    hide Octets;
    EncodeAppend(labels[..i], labels[i]);
    assert labels[..i + 1] == labels[..i] + [labels[i]];
  }

  /** `dns_request` fills a packet word by word and label by label. */
  method DnsRequest(id: nat, name: string, code: nat) returns (packet: seq<byte>)
    ensures packet == Query(id, name, code)
  {
    hide Words, Encode, Octets, WordBytes, Split, TrimDots;
    packet := [];
    var words := [id, 0x0100, 1, 0, 0, 0];
    WordsLast(words, 0);
    for i := 0 to |words|
      invariant packet == Words(words[..i])
    {
      WordsLast(words, i);
      packet := packet + WordBytes(words[i]);
    }
    assert words[..|words|] == words;
    ghost var header := packet;
    var labels := Split(TrimDots(name), '.');
    EncodeLast(labels, 0);
    assert header + [] == header;
    for i := 0 to |labels|
      invariant packet == header + Encode(labels[..i])
    {
      EncodeLast(labels, i);
      packet := packet + [|labels[i]| % 256];
      packet := packet + Octets(labels[i]);
    }
    assert labels[..|labels|] == labels;
    packet := packet + [0];
    packet := packet + WordBytes(code);
    packet := packet + WordBytes(1);
  }

  // ----- Reading a name -----

  function Word(packet: seq<byte>, offset: nat): Option<nat> {
    if offset + 1 < |packet| then
      var high: nat, low: nat := packet[offset], packet[offset + 1];
      Some(256 * high + low)
    else None
  }

  /** What stands at one position of a packet, read as part of a name. */
  datatype Hop = Root | Label(size: nat) | Pointer(target: nat) | Bad

  function HopAt(packet: seq<byte>, position: nat): Hop {
    if position >= |packet| then Bad
    else
      var size := packet[position];
      if size >= 0xc0 then
        match Word(packet, position)
        case None => Bad
        case Some(word) => Pointer(word % 0x4000)
      else if size >= 0x40 then Bad
      else if size == 0 then Root
      else if position + 1 + size <= |packet| then Label(size)
      else Bad
  }

  /** The pointer-following relation: `next` is where a name goes on after `position`. */
  predicate Follows(packet: seq<byte>, position: nat, next: nat) {
    match HopAt(packet, position)
    case Label(size) => next == position + 1 + size
    case Pointer(target) => next == target
    case _ => false
  }

  /** The positions a name runs through, from its first octet to a root label. */
  ghost predicate Trail(packet: seq<byte>, trail: seq<nat>)
  {
    && trail != []
    && HopAt(packet, trail[|trail| - 1]).Root?
    && forall k :: 0 <= k < |trail| - 1 ==> Follows(packet, trail[k], trail[k + 1])
  }

  /** The label text at a position, if a label stands there. */
  function LabelBytes(packet: seq<byte>, position: nat): seq<byte> {
    match HopAt(packet, position)
    case Label(size) => packet[position + 1..position + 1 + size]
    case _ => []
  }

  function Text(bytes: seq<byte>): string {
    seq(|bytes|, k requires 0 <= k < |bytes| => bytes[k] as char)
  }

  function LabelText(packet: seq<byte>, position: nat): string {
    Lower(Text(LabelBytes(packet, position)))
  }

  /** The labels along a trail, in lower case. */
  function Labels(packet: seq<byte>, trail: seq<nat>): seq<string> {
    if trail == [] then []
    else
      (if HopAt(packet, trail[0]).Label? then [LabelText(packet, trail[0])] else [])
      + Labels(packet, trail[1..])
  }

  /** The encoded length of those labels. */
  function Length(packet: seq<byte>, trail: seq<nat>): nat {
    if trail == [] then 0
    else (if HopAt(packet, trail[0]).Label? then |LabelBytes(packet, trail[0])| + 1 else 0) + Length(packet, trail[1..])
  }

  predicate AllAscii(bytes: seq<byte>) {
    forall k :: 0 <= k < |bytes| ==> bytes[k] < 128
  }

  predicate Ascii(packet: seq<byte>, trail: seq<nat>) {
    trail == [] || (AllAscii(LabelBytes(packet, trail[0])) && Ascii(packet, trail[1..]))
  }

  /** Where the enclosing message goes on: after the first pointer, else after the root. */
  function After(packet: seq<byte>, trail: seq<nat>): nat
    requires trail != []
  {
    if HopAt(packet, trail[0]).Pointer? then trail[0] + 2
    else if |trail| == 1 then trail[0] + 1
    else After(packet, trail[1..])
  }

  /** `trail` is the trail of the name at `start`, within `limit` positions. */
  ghost predicate Resolves(packet: seq<byte>, start: nat, trail: seq<nat>, limit: nat) {
    && Trail(packet, trail) && trail[0] == start
    && |trail| <= limit
    && Length(packet, trail) <= LENGTH_LIMIT
    && Ascii(packet, trail)
  }

  /** The trail from `position`, if it ends within `budget` positions. */
  function Follow(packet: seq<byte>, position: nat, budget: nat): (r: Option<seq<nat>>)
    ensures r.Some? ==> r.value != [] && r.value[0] == position && |r.value| <= budget
    decreases budget
  {
    if budget == 0 then None
    else
      match HopAt(packet, position)
      case Root => Some([position])
      case Bad => None
      case Label(size) => Extend(position, Follow(packet, position + 1 + size, budget - 1))
      case Pointer(target) => Extend(position, Follow(packet, target, budget - 1))
  }

  function Extend(position: nat, trail: Option<seq<nat>>): Option<seq<nat>> {
    match trail
    case None => None
    case Some(t) => Some([position] + t)
  }

  lemma TrailTail(packet: seq<byte>, trail: seq<nat>)
    requires Trail(packet, trail) && |trail| > 1
    ensures Follows(packet, trail[0], trail[1]) && Trail(packet, trail[1..])
  {
    var rest := trail[1..];
    forall k | 0 <= k < |rest| - 1 ensures Follows(packet, rest[k], rest[k + 1]) {
      assert Follows(packet, trail[k + 1], trail[k + 2]);
    }
  }

  lemma {:induction false} FollowIsTrail(packet: seq<byte>, position: nat, budget: nat)
    requires Follow(packet, position, budget).Some?
    ensures Trail(packet, Follow(packet, position, budget).value)
    decreases budget
  {
    var trail := Follow(packet, position, budget).value;
    if !HopAt(packet, position).Root? {
      FollowIsTrail(packet, trail[1], budget - 1);
      assert trail[1..] == Follow(packet, trail[1], budget - 1).value;
      forall k | 0 <= k < |trail| - 1 ensures Follows(packet, trail[k], trail[k + 1]) {
        if k > 0 { assert Follows(packet, trail[1..][k - 1], trail[1..][k]); }
      }
    }
  }

  /** The relation is functional: any trail is the one that following finds. */
  lemma {:induction false} FollowFinds(packet: seq<byte>, trail: seq<nat>, budget: nat)
    requires Trail(packet, trail) && |trail| <= budget
    ensures Follow(packet, trail[0], budget) == Some(trail)
    decreases |trail|
  {
    if |trail| == 1 {
      assert trail == [trail[0]];
    } else {
      TrailTail(packet, trail);
      FollowFinds(packet, trail[1..], budget - 1);
      assert trail == [trail[0]] + trail[1..];
    }
  }

  /** The name at `start` and the cursor behind it, read in at most `limit` positions. */
  function NameWithin(packet: seq<byte>, start: nat, limit: nat): Option<(string, nat)> {
    match Follow(packet, start, limit)
    case None => None
    case Some(trail) =>
      if Length(packet, trail) <= LENGTH_LIMIT && Ascii(packet, trail)
      then Some((Join(Labels(packet, trail)), After(packet, trail))) else None
  }

  function NameAt(packet: seq<byte>, start: nat): Option<(string, nat)> {
    NameWithin(packet, start, HOP_LIMIT)
  }

  lemma {:induction false} AfterAdvances(packet: seq<byte>, trail: seq<nat>)
    requires Trail(packet, trail)
    ensures trail[0] < After(packet, trail) <= |packet|
    decreases |trail|
  {
    if |trail| > 1 {
      TrailTail(packet, trail);
      AfterAdvances(packet, trail[1..]);
    }
  }

  lemma NameWithinExact(packet: seq<byte>, start: nat, limit: nat)
    ensures NameWithin(packet, start, limit).Some? ==>
              exists trail :: Resolves(packet, start, trail, limit)
    ensures forall trail :: Resolves(packet, start, trail, limit) ==>
              NameWithin(packet, start, limit) == Some((Join(Labels(packet, trail)), After(packet, trail)))
    ensures NameWithin(packet, start, limit).Some? ==> start < NameWithin(packet, start, limit).value.1 <= |packet|
  {
    forall trail | Resolves(packet, start, trail, limit)
      ensures NameWithin(packet, start, limit) == Some((Join(Labels(packet, trail)), After(packet, trail)))
    {
      FollowFinds(packet, trail, limit);
    }
    if NameWithin(packet, start, limit).Some? {
      var trail := Follow(packet, start, limit).value;
      FollowIsTrail(packet, start, limit);
      assert Resolves(packet, start, trail, limit);
      AfterAdvances(packet, trail);
    }
  }

  /** A name is read exactly when the pointer-following relation reaches a root
      label within 128 positions, 254 octets and ASCII; then the result is the
      text of that trail and a cursor that has advanced and is within the packet. */
  lemma NameAtExact(packet: seq<byte>, start: nat)
    ensures NameAt(packet, start).Some? <==> exists trail :: Resolves(packet, start, trail, HOP_LIMIT)
    ensures forall trail :: Resolves(packet, start, trail, HOP_LIMIT) ==>
              NameAt(packet, start) == Some((Join(Labels(packet, trail)), After(packet, trail)))
    ensures NameAt(packet, start).Some? ==> start < NameAt(packet, start).value.1 <= |packet|
  {
    hide NameWithin;
    NameWithinExact(packet, start, HOP_LIMIT);
  }

  // ----- The reading loop -----

  lemma {:induction false} TrailAppend(packet: seq<byte>, seen: seq<nat>, position: nat)
    ensures Labels(packet, seen + [position]) == Labels(packet, seen)
         + if HopAt(packet, position).Label? then [LabelText(packet, position)] else []
    ensures Length(packet, seen + [position]) == Length(packet, seen)
         + if HopAt(packet, position).Label? then |LabelBytes(packet, position)| + 1 else 0
    ensures Ascii(packet, seen + [position]) <==> Ascii(packet, seen) && AllAscii(LabelBytes(packet, position))
  {
    hide LabelText, LabelBytes, AllAscii, HopAt;
    if seen == [] {
      assert seen + [position] == [position];
    } else {
      TrailAppend(packet, seen[1..], position);
      assert (seen + [position])[1..] == seen[1..] + [position];
    }
  }

  lemma {:induction false} LimitsPrefix(packet: seq<byte>, seen: seq<nat>, rest: seq<nat>)
    ensures Length(packet, seen) <= Length(packet, seen + rest)
    ensures Ascii(packet, seen + rest) ==> Ascii(packet, seen)
  {
    if seen != [] {
      LimitsPrefix(packet, seen[1..], rest);
      assert (seen + rest)[1..] == seen[1..] + rest;
    }
  }

  /** The cursor saved at the first pointer among the positions seen. */
  function Jump(packet: seq<byte>, seen: seq<nat>): Option<nat> {
    if seen == [] then None
    else if HopAt(packet, seen[0]).Pointer? then Some(seen[0] + 2)
    else Jump(packet, seen[1..])
  }

  lemma {:induction false} JumpAppend(packet: seq<byte>, seen: seq<nat>, position: nat)
    ensures Jump(packet, seen + [position])
         == if Jump(packet, seen).Some? then Jump(packet, seen)
            else if HopAt(packet, position).Pointer? then Some(position + 2) else None
    ensures HopAt(packet, position).Root? ==>
              After(packet, seen + [position])
              == if Jump(packet, seen).Some? then Jump(packet, seen).value else position + 1
  {
    if seen == [] {
      assert seen + [position] == [position];
    } else {
      JumpAppend(packet, seen[1..], position);
      assert (seen + [position])[1..] == seen[1..] + [position];
    }
  }

  /** After the positions `seen`, the name at `start` goes on at `position`. */
  ghost predicate Continues(packet: seq<byte>, start: nat, seen: seq<nat>, position: nat, limit: nat) {
    && |seen| <= limit
    && Follow(packet, start, limit) ==
         match Follow(packet, position, limit - |seen|)
         case None => None
         case Some(rest) => Some(seen + rest)
  }

  lemma Begins(packet: seq<byte>, start: nat, limit: nat)
    ensures Continues(packet, start, [], start, limit)
  {
    assert forall rest: seq<nat> :: [] + rest == rest;
  }

  lemma GoesOn(packet: seq<byte>, start: nat, seen: seq<nat>, position: nat, next: nat, limit: nat)
    requires Continues(packet, start, seen, position, limit) && |seen| < limit && Follows(packet, position, next)
    ensures Continues(packet, start, seen + [position], next, limit)
  {
    if Follow(packet, next, limit - |seen| - 1).Some? {
      var rest := Follow(packet, next, limit - |seen| - 1).value;
      assert seen + ([position] + rest) == (seen + [position]) + rest;
    }
  }

  lemma DeadEnd(packet: seq<byte>, start: nat, seen: seq<nat>, position: nat, limit: nat)
    requires Continues(packet, start, seen, position, limit)
    requires |seen| == limit || HopAt(packet, position).Bad?
    ensures NameWithin(packet, start, limit) == None
  {
  }

  /** Nothing can be read once the part seen breaks a limit or has a bad octet. */
  lemma GivesUp(packet: seq<byte>, start: nat, seen: seq<nat>, position: nat, limit: nat)
    requires Continues(packet, start, seen, position, limit) && |seen| < limit
    requires Length(packet, seen + [position]) > LENGTH_LIMIT || !Ascii(packet, seen + [position])
    ensures NameWithin(packet, start, limit) == None
  {
    hide Follow, HopAt, LabelBytes, Length, Labels, After, Ascii;
    var end := Follow(packet, position, limit - |seen|);
    if end.Some? {
      assert seen + end.value == (seen + [position]) + end.value[1..];
      LimitsPrefix(packet, seen + [position], end.value[1..]);
    }
  }

  lemma Succeeds(packet: seq<byte>, start: nat, seen: seq<nat>, position: nat, limit: nat)
    requires Continues(packet, start, seen, position, limit) && |seen| < limit && HopAt(packet, position).Root?
    requires Length(packet, seen) <= LENGTH_LIMIT && Ascii(packet, seen)
    ensures NameWithin(packet, start, limit) == Some((Join(Labels(packet, seen)), After(packet, seen + [position])))
  {
    TrailAppend(packet, seen, position);
    assert Follow(packet, position, limit - |seen|) == Some([position]);
    assert Labels(packet, seen) + [] == Labels(packet, seen);
  }

  lemma SeeLabel(packet: seq<byte>, seen: seq<nat>, position: nat, size: nat)
    requires HopAt(packet, position) == Label(size)
    ensures var bytes, all := LabelBytes(packet, position), seen + [position];
            && |bytes| == size
            && Labels(packet, all) == Labels(packet, seen) + [LabelText(packet, position)]
            && Length(packet, all) == Length(packet, seen) + size + 1
            && (Ascii(packet, all) <==> Ascii(packet, seen) && AllAscii(bytes))
            && Jump(packet, all) == Jump(packet, seen)
            && Follows(packet, position, position + 1 + size)
  {
    hide Labels, Length, Ascii, Jump, LabelText, AllAscii;
    TrailAppend(packet, seen, position);
    JumpAppend(packet, seen, position);
  }

  lemma SeePointer(packet: seq<byte>, seen: seq<nat>, position: nat, target: nat)
    requires HopAt(packet, position) == Pointer(target)
    ensures var all := seen + [position];
            && Labels(packet, all) == Labels(packet, seen)
            && Length(packet, all) == Length(packet, seen)
            && (Ascii(packet, all) <==> Ascii(packet, seen))
            && Jump(packet, all) == Some(if Jump(packet, seen).Some? then Jump(packet, seen).value else position + 2)
            && Follows(packet, position, target)
  {
    TrailAppend(packet, seen, position);
    JumpAppend(packet, seen, position);
    assert Labels(packet, seen) + [] == Labels(packet, seen);
    hide Labels, Length, Ascii, Jump;
  }

  lemma SeenNothing(packet: seq<byte>)
    ensures Labels(packet, []) == [] && Length(packet, []) == 0 && Ascii(packet, []) && Jump(packet, []) == None
  {
  }

  /** `read_name`: follows labels and pointers from `start`. On success the
      result is the dotted lower-case name and the cursor behind it. */
  method ReadName(packet: seq<byte>, start: nat) returns (name: Option<string>, cursor: nat)
    ensures match NameAt(packet, start)
            case None => name == None
            case Some((text, next)) => name == Some(text) && cursor == next
  {
    hide Continues, Follow, HopAt, LabelBytes, Labels, Length, After, Jump, Join, NameWithin, LabelText, AllAscii,
      Ascii, Follows;
    var position: nat := start;
    cursor := start;
    var jumped := false;
    var labels: seq<string> := [];
    var length := 0;
    ghost var seen: seq<nat> := [];
    Begins(packet, start, HOP_LIMIT);
    SeenNothing(packet);
    for i := 0 to HOP_LIMIT
      invariant |seen| == i && Continues(packet, start, seen, position, HOP_LIMIT)
      invariant labels == Labels(packet, seen)
      invariant length == Length(packet, seen) <= LENGTH_LIMIT
      invariant Ascii(packet, seen)
      invariant Jump(packet, seen) == if jumped then Some(cursor) else None
    {
      match HopAt(packet, position) {
        case Bad =>
          DeadEnd(packet, start, seen, position, HOP_LIMIT);
          return None, cursor;
        case Root =>
          if !jumped { cursor := position + 1; }
          JumpAppend(packet, seen, position);
          Succeeds(packet, start, seen, position, HOP_LIMIT);
          return Some(Join(labels)), cursor;
        case Pointer(target) =>
          SeePointer(packet, seen, position, target);
          if !jumped {
            cursor := position + 2;
            jumped := true;
          }
          GoesOn(packet, start, seen, position, target, HOP_LIMIT);
          seen := seen + [position];
          position := target;
        case Label(size) =>
          SeeLabel(packet, seen, position, size);
          var bytes := LabelBytes(packet, position);
          length := length + size + 1;
          if length > LENGTH_LIMIT || !AllAscii(bytes) {
            GivesUp(packet, start, seen, position, HOP_LIMIT);
            return None, cursor;
          }
          GoesOn(packet, start, seen, position, position + 1 + size, HOP_LIMIT);
          labels := labels + [LabelText(packet, position)];
          seen := seen + [position];
          position := position + size + 1;
      }
    }
    DeadEnd(packet, start, seen, position, HOP_LIMIT);
    return None, cursor;
  }
}
