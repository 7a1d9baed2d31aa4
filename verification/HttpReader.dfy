/** The buffered response reader over a connection whose reads deliver any
    number of octets or fail: what it hands out, octet by octet. */
module HttpReader {
  import opened Common

  const BUFFER_SIZE: nat := 8192

  datatype IoError = Interrupted | UnexpectedEof | Failed

  /** What one read of the connection does: deliver at most so many octets (at
      least one unless the peer has closed), or fail. */
  datatype Outcome = Deliver(most: nat) | Fail(error: IoError)

  /** How many octets a successful read delivers. */
  function Amount(most: nat, room: nat, available: nat): nat {
    Least(Least(if most == 0 then 1 else most, room), available)
  }

  /** A connection: the octets to come and a script of what its reads do. */
  class Stream {
    var data: string
    const outcomes: nat -> Outcome
    var turn: nat

    constructor (data: string, outcomes: nat -> Outcome)
      ensures this.data == data && this.outcomes == outcomes && turn == 0
    {
      this.data := data;
      this.outcomes := outcomes;
      this.turn := 0;
    }

    function Next(): Outcome
      reads this
    {
      outcomes(turn)
    }

    method Read(output: array<char>) returns (r: Result<nat, IoError>)
      requires output.Length > 0
      modifies this, output
      ensures turn == old(turn) + 1
      ensures r.Ok? ==> r.value <= output.Length && (r.value == 0 <==> old(data) == "")
      ensures match old(Next())
              case Fail(e) => r == Err(e) && data == old(data) && output[..] == old(output[..])
              case Deliver(most) =>
                && r == Ok(Amount(most, output.Length, |old(data)|)) && (most <= 1 ==> r.value <= 1)
                && output[..r.value] == old(data)[..r.value] && data == old(data)[r.value..]
    {
      var outcome := Next();
      turn := turn + 1;
      if outcome.Fail? { return Err(outcome.error); }
      var count := Amount(outcome.most, output.Length, |data|);
      forall k | 0 <= k < count { output[k] := data[k]; }
      data := data[count..];
      return Ok(count);
    }
  }

  /** The time left, as the number of clock readings that still come before the deadline. */
  class Deadline {
    var left: nat

    constructor (left: nat)
      ensures this.left == left
    {
      this.left := left;
    }

    method Passed() returns (passed: bool)
      modifies this
      ensures passed <==> old(left) == 0
      ensures left == if passed then 0 else old(left) - 1
    {
      passed := left == 0;
      if !passed { left := left - 1; }
    }
  }

  ghost predicate SteadyFrom(outcomes: nat -> Outcome, turn: nat, end: nat) {
    && (forall k: nat :: k >= turn ==> outcomes(k).Deliver? || outcomes(k) == Fail(Interrupted))
    && (forall j: nat, k: nat :: turn <= j < k && outcomes(j).Deliver? ==> outcomes(k).Deliver?)
    && (end > 0 ==> forall k: nat :: k >= turn ==> outcomes(k).Deliver?)
  }

  lemma SteadyStays(outcomes: nat -> Outcome, turn: nat, end: nat, later: nat)
    requires SteadyFrom(outcomes, turn, end)
    ensures outcomes(turn).Deliver? ==> SteadyFrom(outcomes, turn + 1, later)
    ensures outcomes(turn).Fail? ==>
              end == 0 && outcomes(turn).error == Interrupted && SteadyFrom(outcomes, turn + 1, end)
  {
  }

  // ----- What a connection feeds -----

  /** After some refills: all octets put at the reader's disposal, the contents of
      the used buffer, and the octets still to come. A failed refill puts the
      used buffer at its disposal again. */
  datatype Feed = Feed(octets: string, used: string, left: string)

  function Fed(source: string, outcomes: nat -> Outcome, first: nat, refills: nat): Feed {
    if refills == 0 then Feed("", "", source)
    else
      var f := Fed(source, outcomes, first, refills - 1);
      match outcomes(first + refills - 1)
      case Fail(_) => Feed(f.octets + f.used, f.used, f.left)
      case Deliver(most) =>
        var n := Amount(most, BUFFER_SIZE, |f.left|);
        Feed(f.octets + f.left[..n], f.left[..n], f.left[n..])
  }

  /** A refill of a used buffer failed. */
  ghost predicate Replayed(source: string, outcomes: nat -> Outcome, first: nat, refills: nat) {
    exists k: nat :: k < refills && outcomes(first + k).Fail? && Fed(source, outcomes, first, k).used != ""
  }

  /** The octets fed and those to come are the octets sent exactly if no refill
      of a used buffer failed; otherwise there are more of them. */
  lemma {:induction false} FedExactly(source: string, outcomes: nat -> Outcome, first: nat, refills: nat)
    ensures var f := Fed(source, outcomes, first, refills);
            && (f.octets + f.left == source <==> !Replayed(source, outcomes, first, refills))
            && (Replayed(source, outcomes, first, refills) ==> |f.octets + f.left| > |source|)
  {
    hide Fed, Replayed;
    if refills == 0 {
      FedStart(source, outcomes, first);
    } else {
      var n: nat := refills - 1;
      FedExactly(source, outcomes, first, n);
      ReplayedNext(source, outcomes, first, n);
      FedNext(source, outcomes, first, n);
      assert n + 1 == refills;
    }
  }

  lemma FedStart(source: string, outcomes: nat -> Outcome, first: nat)
    ensures Fed(source, outcomes, first, 0).octets + Fed(source, outcomes, first, 0).left == source
    ensures !Replayed(source, outcomes, first, 0)
  {
    assert "" + source == source;
  }

  lemma ReplayedNext(source: string, outcomes: nat -> Outcome, first: nat, refills: nat)
    ensures Replayed(source, outcomes, first, refills + 1) <==>
            || Replayed(source, outcomes, first, refills)
            || (outcomes(first + refills).Fail? && Fed(source, outcomes, first, refills).used != "")
  {
    hide Fed;
    assert outcomes(first + refills) == outcomes(first + refills);
  }

  lemma FedNext(source: string, outcomes: nat -> Outcome, first: nat, refills: nat)
    ensures var f, g := Fed(source, outcomes, first, refills), Fed(source, outcomes, first, refills + 1);
            if outcomes(first + refills).Fail?
            then g.octets == f.octets + f.used && g.left == f.left
                 && |g.octets + g.left| == |f.octets + f.left| + |f.used| && (f.used == "" ==> g.octets == f.octets)
            else g.octets + g.left == f.octets + f.left
  {
    var f, g := Fed(source, outcomes, first, refills), Fed(source, outcomes, first, refills + 1);
    if outcomes(first + refills).Fail? {
      assert f.used == "" ==> f.octets + f.used == f.octets;
    } else {
      var n := Amount(outcomes(first + refills).most, BUFFER_SIZE, |f.left|);
      assert f.left[..n] + f.left[n..] == f.left;
      assert (f.octets + f.left[..n]) + f.left[n..] == f.octets + f.left;
    }
  }

  lemma FedStep(source: string, outcomes: nat -> Outcome, first: nat, refills: nat)
    ensures var f := Fed(source, outcomes, first, refills);
            Fed(source, outcomes, first, refills + 1) ==
            match outcomes(first + refills)
            case Fail(_) => Feed(f.octets + f.used, f.used, f.left)
            case Deliver(most) =>
              var n := Amount(most, BUFFER_SIZE, |f.left|);
              Feed(f.octets + f.left[..n], f.left[..n], f.left[n..])
  {
  }

  class BufferedReader {
    const inner: Stream
    const buffer: array<char>
    var start: nat
    var end: nat
    ghost const source: string
    ghost const first: nat
    /** Everything handed out so far. */
    ghost var handed: string

    constructor (inner: Stream)
      ensures Valid() && this.inner == inner && fresh(buffer)
      ensures source == inner.data && first == inner.turn
      ensures start == end == 0 && Rest() == inner.data && handed == ""
    {
      this.inner := inner;
      this.buffer := new char[BUFFER_SIZE](_ => '\0');
      this.start := 0;
      this.end := 0;
      this.source := inner.data;
      this.first := inner.turn;
      this.handed := "";
    }

    /** What was handed out and what is buffered is what the connection fed. */
    ghost predicate Valid()
      reads this, inner, buffer
    {
      && start <= end <= buffer.Length == BUFFER_SIZE && first <= inner.turn
      && Feed(handed + buffer[start..end], buffer[..end], inner.data)
         == Fed(source, inner.outcomes, first, inner.turn - first)
    }

    /** The octets that the reader still has to hand out. */
    ghost function Rest(): string
      requires Valid()
      reads this, inner, buffer
    {
      buffer[start..end] + inner.data
    }

    /** The next read refills a used buffer and is interrupted. */
    ghost predicate Replays()
      reads this, inner
    {
      start == end > 0 && inner.Next() == Fail(Interrupted)
    }

    /** What repeated reads hand out: the rest, after a replayed buffer. */
    ghost function Coming(): string
      requires Valid()
      reads this, inner, buffer
    {
      (if Replays() then buffer[..end] else "") + Rest()
    }

    ghost predicate FailedWith(error: IoError)
      reads this, inner
    {
      inner.turn > 0 && inner.outcomes(inner.turn - 1) == Fail(error)
    }

    /** Old octets come back exactly if the next read refills a used buffer and is
        interrupted. */
    lemma ReplayExactly()
      requires Valid()
      ensures Coming() == Rest() <==> !Replays()
    {
      hide Fed;
      if Replays() {
        assert |Coming()| == end + |Rest()|;
      } else {
        assert "" + Rest() == Rest();
      }
    }

    /** Over any run of reads, what was handed out and what is to come are the
        octets sent exactly if no refill of a used buffer failed; otherwise there
        are more of them. */
    lemma SentExactly()
      requires Valid()
      ensures handed + Rest() == source <==> !Replayed(source, inner.outcomes, first, inner.turn - first)
      ensures |handed + Rest()| >= |source|
    {
      hide Fed, Replayed;
      FedExactly(source, inner.outcomes, first, inner.turn - first);
      Regroup(handed, buffer[start..end], inner.data);
    }

    /** No read fails, except that reads may be interrupted before the first data. */
    ghost predicate Steady()
      reads this, inner
    {
      SteadyFrom(inner.outcomes, inner.turn, end)
    }

    lemma SteadyComing()
      requires Valid() && Steady()
      ensures Coming() == Rest()
    {
      ReplayExactly();
      assert inner.outcomes(inner.turn).Deliver? || end == 0;
    }

    /** `start` is reset before the refill can fail: if the buffer was ever
        filled, its old octets come back. */
    method Refill() returns (r: Result<nat, IoError>)
      requires Valid() && start == end
      modifies this`start, this`end, inner, buffer
      ensures Valid() && inner.turn == old(inner.turn) + 1 && start == 0
      ensures match r
              case Ok(count) =>
                && old(inner.Next()).Deliver? && end == count && Rest() == old(Rest())
                && (count == 0 <==> Rest() == "")
                && count == Amount(old(inner.Next()).most, 8192, |old(inner.data)|)
              case Err(e) =>
                && old(inner.Next()) == Fail(e) && end == old(end)
                && Rest() == old(buffer[..end]) + old(Rest())
    {
      hide Fed;
      FedStep(source, inner.outcomes, first, inner.turn - first);
      ghost var used, data := buffer[..end], inner.data;
      assert handed + buffer[start..end] == handed && buffer[start..end] + data == data;
      start := 0;
      r := inner.Read(buffer);
      if r.Err? {
        assert buffer[..end] == buffer[..][..end] == used && buffer[0..end] == used;
        return;
      }
      end := r.value;
      assert buffer[0..end] == buffer[..end] == data[..end];
      Parted(data, end);
    }

    method Serve(output: array<char>, from: nat, to: nat) returns (count: nat)
      requires Valid() && from <= to <= output.Length && output != buffer
      modifies this`start, this`handed, output
      ensures Valid()
      ensures count == Least(to - from, end - old(start)) && start == old(start) + count
      ensures handed == old(handed) + output[from..from + count]
      ensures output[from..from + count] + Rest() == old(Rest())
      ensures output[..from] == old(output[..from]) && output[to..] == old(output[to..])
    {
      hide Fed;
      count := Least(to - from, end - start);
      ghost var served, rest := buffer[start..start + count], buffer[start + count..end];
      assert buffer[start..end] == served + rest;
      Regroup(handed, served, rest);
      Regroup(served, rest, inner.data);
      CopyOctets(buffer, start, output, from, count);
      start := start + count;
      handed := handed + served;
      assert buffer[start..end] == rest;
    }

    /** One read into `output[from..to]`. When it fails, nothing is lost, and
        nothing is repeated exactly if the buffer was never filled. */
    method Read(output: array<char>, from: nat, to: nat) returns (r: Result<nat, IoError>)
      requires Valid() && from <= to <= output.Length && output != buffer
      modifies this, inner, buffer, output
      ensures Valid()
      ensures output[..from] == old(output[..from]) && output[to..] == old(output[to..])
      ensures r.Ok? ==> r.value <= to - from && handed == old(handed) + output[from..from + r.value]
      ensures from == to ==> r == Ok(0) && Rest() == old(Rest())
      ensures r.Ok? && from < to ==>
                && output[from..from + r.value] + Rest() == old(Rest()) == old(Coming())
                && (r.value == 0 <==> old(Rest()) == "")
      ensures r.Err? ==>
                && handed == old(handed)
                && start == 0 && old(start) == old(end) == end && old(inner.Next()) == Fail(r.error)
                && FailedWith(r.error)
                && Rest() == old(buffer[..end]) + old(Rest())
                && (Rest() == old(Rest()) <==> old(end) == 0)
      ensures r == Err(Interrupted) ==> Coming() == old(Coming())
      ensures old(Steady()) ==> Steady() && (r.Err? ==> r.error == Interrupted && Rest() == old(Rest()))
    {
      hide SteadyFrom, Fed, BufferedReader.Rest, BufferedReader.Coming;
      ghost var turn, before, rest := inner.turn, end, Rest();
      ghost var steady := Steady();
      ComingIs();
      if from == to {
        assert output[from..from] == [] && handed + [] == handed;
        return Ok(0);
      }
      if start == end {
        ghost var used := buffer[..end];
        var filled := Refill();
        if steady { SteadyStays(inner.outcomes, turn, before, end); }
        if filled.Err? {
          ComingIs();
          Longer(used, rest);
          return Err(filled.error);
        }
        if end == 0 {
          assert output[from..from] == [] && handed + [] == handed;
          return Ok(0);
        }
      }
      Buffered();
      var count := Serve(output, from, to);
      return Ok(count);
    }

    lemma ComingIs()
      requires Valid()
      ensures Coming() == if Replays() then buffer[..end] + Rest() else Rest()
    {
      hide Fed;
      assert "" + Rest() == Rest();
    }

    lemma Buffered()
      requires Valid()
      ensures start < end ==> Rest() != ""
    {
      hide Fed;
    }
  }

  method CopyOctets(source: array<char>, at: nat, output: array<char>, from: nat, count: nat)
    requires at + count <= source.Length && from + count <= output.Length && source != output
    modifies output
    ensures output[from..from + count] == source[at..at + count]
    ensures output[..from] == old(output[..from]) && output[from + count..] == old(output[from + count..])
  {
    forall k | 0 <= k < count { output[from + k] := source[at + k]; }
  }

  lemma Parted(s: string, count: nat)
    requires count <= |s|
    ensures s[..count] + s[count..] == s
  {
  }

  lemma Longer(used: string, data: string)
    ensures used + data == data <==> used == ""
  {
    assert |used + data| == |used| + |data|;
  }
}
