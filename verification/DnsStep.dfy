/** Reading a name position by position, said over the octets (RFC 1035 sections 3.1
    and 4.1.4). */
module DnsStep {
  import opened Common
  import opened Strings
  import opened DnsName

  lemma {:induction false} JoinLength(labels: seq<string>)
    requires labels != []
    ensures |Join(labels)| + 1 == Total(labels)
    decreases |labels|
  {
    if |labels| > 1 {
      JoinLength(labels[1..]);
    } else {
      assert labels[1..] == [];
    }
  }

  function Total(labels: seq<string>): nat {
    if labels == [] then 0 else |labels[0]| + 1 + Total(labels[1..])
  }

  lemma {:induction false} TrailLength(packet: seq<byte>, trail: seq<nat>)
    ensures Length(packet, trail) == Total(Labels(packet, trail))
    ensures forall part <- Labels(packet, trail) :: part != ""
    decreases |trail|
  {
    hide HopAt;
    if trail != [] {
      TrailLength(packet, trail[1..]);
      var rest := Labels(packet, trail[1..]);
      if HopAt(packet, trail[0]).Label? {
        LabelLength(packet, trail[0]);
        assert ([LabelText(packet, trail[0])] + rest)[1..] == rest;
      } else {
        assert [] + rest == rest;
      }
    }
  }

  lemma LabelLength(packet: seq<byte>, position: nat)
    requires HopAt(packet, position).Label?
    ensures |LabelText(packet, position)| == |LabelBytes(packet, position)| > 0
  {
  }

  /** How long the text of a name is on the wire, without the root. */
  function WireLength(text: string): nat {
    if text == "" then 0 else |text| + 1
  }

  lemma TextLength(packet: seq<byte>, trail: seq<nat>)
    ensures Length(packet, trail) == WireLength(Join(Labels(packet, trail)))
    ensures Labels(packet, trail) == [] <==> Join(Labels(packet, trail)) == ""
  {
    hide Labels, Length;
    TrailLength(packet, trail);
    var labels := Labels(packet, trail);
    if labels != [] {
      assert labels[0] in labels;
      JoinLength(labels);
    }
  }

  /** The root is the empty name, one octet long. */
  lemma RootReads(packet: seq<byte>, at: nat, limit: nat)
    requires at < |packet| && packet[at] == 0 && limit > 0
    ensures NameWithin(packet, at, limit) == Some(("", at + 1))
  {
    assert HopAt(packet, at).Root?;
    assert Follow(packet, at, limit) == Some([at]);
    var trail: seq<nat> := [at];
    assert trail[1..] == [];
    assert Labels(packet, trail[1..]) == [];
    assert Labels(packet, trail) == [];
    assert Length(packet, trail) == 0;
    assert Ascii(packet, trail);
  }

  /** A label is read before the rest of its name exactly if its octets are there and
      are ASCII, and if the whole name has at most 254 octets before its root. */
  lemma LabelReads(packet: seq<byte>, at: nat, limit: nat)
    requires at < |packet| && 0 < packet[at] < 64
    ensures var n := packet[at] as int;
            NameWithin(packet, at, limit + 1) ==
            if at + 1 + n > |packet| then None
            else
              match NameWithin(packet, at + 1 + n, limit)
              case None => None
              case Some((text, end)) =>
                var octets := packet[at + 1..at + 1 + n];
                if (forall k :: 0 <= k < n ==> octets[k] < 128) && n + 1 + WireLength(text) <= 254
                then Some((Lower(Text(octets)) + (if text == "" then "" else "." + text), end))
                else None
  {
    hide Labels, Length, Ascii, After, Join;
    var n := packet[at] as int;
    if at + 1 + n <= |packet| {
      assert HopAt(packet, at) == Label(n);
      if Follow(packet, at + 1 + n, limit).Some? {
        var trail := Follow(packet, at + 1 + n, limit).value;
        LabelStep(packet, at, trail);
        TextLength(packet, trail);
      }
    } else {
      assert HopAt(packet, at).Bad?;
    }
  }

  lemma LabelStep(packet: seq<byte>, at: nat, trail: seq<nat>)
    requires HopAt(packet, at).Label? && trail != []
    ensures var longer, first := [at] + trail, LabelText(packet, at);
            && Length(packet, longer) == |LabelBytes(packet, at)| + 1 + Length(packet, trail)
            && (Ascii(packet, longer) <==> AllAscii(LabelBytes(packet, at)) && Ascii(packet, trail))
            && After(packet, longer) == After(packet, trail)
            && Join(Labels(packet, longer)) ==
               first + if Labels(packet, trail) == [] then "" else "." + Join(Labels(packet, trail))
  {
    hide HopAt;
    var longer := [at] + trail;
    assert longer[1..] == trail;
    var labels := Labels(packet, trail);
    assert Labels(packet, longer) == [LabelText(packet, at)] + labels;
    assert ([LabelText(packet, at)] + labels)[1..] == labels;
  }

  /** A compression pointer stands for the name at its offset and costs one more
      position. */
  lemma PointerReads(packet: seq<byte>, at: nat, offset: nat, limit: nat)
    requires at + 1 < |packet| && packet[at] >= 0xc0
    requires offset == 256 * ((packet[at] as int) - 0xc0) + packet[at + 1]
    ensures NameWithin(packet, at, limit + 1) ==
            match NameWithin(packet, offset, limit)
            case None => None
            case Some((text, _)) => Some((text, at + 2))
  {
    assert HopAt(packet, at) == Pointer(offset);
    hide Labels, Length, Ascii, After, HopAt, LabelBytes;
    if Follow(packet, offset, limit).Some? { PointerStep(packet, at, offset, Follow(packet, offset, limit).value); }
  }

  lemma PointerStep(packet: seq<byte>, at: nat, offset: nat, trail: seq<nat>)
    requires HopAt(packet, at) == Pointer(offset)
    ensures var longer := [at] + trail;
            && Labels(packet, longer) == Labels(packet, trail) && Length(packet, longer) == Length(packet, trail)
            && (Ascii(packet, longer) <==> Ascii(packet, trail)) && After(packet, longer) == at + 2
  {
    assert ([at] + trail)[1..] == trail;
    assert [] + Labels(packet, trail) == Labels(packet, trail);
  }

  /** Nothing else can be read. */
  lemma OthersRefused(packet: seq<byte>, at: nat, limit: nat)
    requires at >= |packet| || 64 <= packet[at] < 0xc0 || (packet[at] >= 0xc0 && at + 1 >= |packet|) || limit == 0
    ensures NameWithin(packet, at, limit) == None
  {
    if limit > 0 { assert HopAt(packet, at).Bad?; }
  }
}
