/** The durable replay registry: each accepted message id gets the next sequence number, and every
    acceptance is written to the backing file before it is reported. */
module ReplayRegistry {
  import opened Options

  datatype Status = Valid | Duplicate | Stale | Future

  /** `sequenceNumber` is 0 when the message is rejected before one is assigned. */
  datatype Decision = Decision(messageId: string, sequenceNumber: nat, status: Status)

  datatype Entry = Entry(sequenceNumber: nat, issuedAt: real)

  /** Counter and entries, as held in memory and as written to the file. */
  datatype Image = Image(counter: nat, entries: map<string, Entry>)

  /** The backing file; `Unreadable` is any text that does not parse as an image. */
  datatype File = Absent | Blank | Unreadable | Stored(image: Image)

  const EMPTY := Image(0, map[])

  function Load(file: File): Image {
    if file.Stored? then file.image else EMPTY
  }

  /** Entries are in bijection with 1..counter. */
  ghost predicate Consistent(image: Image) {
    && (forall id :: id in image.entries ==> 1 <= image.entries[id].sequenceNumber <= image.counter)
    && (forall id, other :: id in image.entries && other in image.entries && id != other ==>
          image.entries[id].sequenceNumber != image.entries[other].sequenceNumber)
    && (forall n :: 1 <= n <= image.counter ==> HasNumber(image, n))
  }

  ghost predicate HasNumber(image: Image, n: int) {
    exists id :: id in image.entries && image.entries[id].sequenceNumber == n
  }

  predicate IsStale(ttl: real, issuedAt: real, now: real) {
    now - issuedAt > ttl
  }

  /** The decision taken under the lock. */
  function Decide(image: Image, maxGap: int, messageId: string): Decision {
    if messageId in image.entries then Decision(messageId, image.entries[messageId].sequenceNumber, Duplicate)
    else if image.counter + 1 - image.counter > maxGap then Decision(messageId, 0, Future)
    else Decision(messageId, image.counter + 1, Valid)
  }

  function Accept(image: Image, messageId: string, issuedAt: real): Image {
    Image(image.counter + 1, image.entries[messageId := Entry(image.counter + 1, issuedAt)])
  }

  lemma AcceptKeepsConsistent(image: Image, messageId: string, issuedAt: real)
    requires Consistent(image) && messageId !in image.entries
    ensures Consistent(Accept(image, messageId, issuedAt))
  {
    var after := Accept(image, messageId, issuedAt);
    forall n | 1 <= n <= after.counter
      ensures HasNumber(after, n)
    {
      if n <= image.counter {
        assert HasNumber(image, n);
        var id :| id in image.entries && image.entries[id].sequenceNumber == n;
        assert after.entries[id].sequenceNumber == n;
      } else {
        assert after.entries[messageId].sequenceNumber == n;
      }
    }
  }

  class ReplayRegistry {
    const ttl: real
    const maxGap: int
    var counter: nat
    var entries: map<string, Entry>
    var file: File

    function State(): Image
      reads this
    {
      Image(counter, entries)
    }

    /** What is in memory is what a restart would load. */
    ghost predicate Valid()
      reads this
    {
      Consistent(State()) && Load(file) == State()
    }

    constructor (file: File, ttl: real, maxGap: int)
      requires Consistent(Load(file))
      ensures Valid() && State() == Load(file) && this.file == file
      ensures if file.Stored? then counter == file.image.counter && entries == file.image.entries
              else counter == 0 && entries == map[]
      ensures this.ttl == ttl && this.maxGap == maxGap
    {
      this.file, this.ttl, this.maxGap := file, ttl, maxGap;
      counter, entries := 0, map[];
      new;
      if file.Stored? {
        counter, entries := file.image.counter, file.image.entries;
      }
    }

    /** FUTURE is documented as a detected gap, but a new message never opens one: with a positive gap limit
        it is never answered.
        `now` is the clock reading at the call; it is also the default for `issuedAt`. */
    method Submit(messageId: string, issuedAt: Option<real>, now: real) returns (decision: Decision)
      requires Valid()
      modifies this
      ensures Valid()
      ensures var issued := if issuedAt.Some? then issuedAt.value else now;
        if IsStale(ttl, issued, now) then
          decision == Decision(messageId, 0, Stale) && unchanged(this)
        else
          && decision == Decide(old(State()), maxGap, messageId)
          && State() == (if decision.status.Valid? then Accept(old(State()), messageId, issued) else old(State()))
      ensures var issued := if issuedAt.Some? then issuedAt.value else now;
        && (decision.status.Stale? <==> now - issued > ttl)
        && (decision.status.Duplicate? <==> now - issued <= ttl && messageId in old(entries))
        && (decision.status.Future? <==> now - issued <= ttl && messageId !in old(entries) && maxGap < 1)
        && decision.messageId == messageId
        && (decision.status.Duplicate? ==> decision.sequenceNumber == old(entries)[messageId].sequenceNumber)
        && (decision.status.Stale? || decision.status.Future? ==> decision.sequenceNumber == 0)
        && (decision.status.Valid? ==>
              && decision.sequenceNumber == counter == old(counter) + 1
              && entries == old(entries)[messageId := Entry(counter, issued)])
        && (!decision.status.Valid? ==> unchanged(this))
    {
      var issued := if issuedAt.Some? then issuedAt.value else now;
      var age := now - issued;
      if age > ttl {
        return Decision(messageId, 0, Stale);
      }
      if messageId in entries {
        return Decision(messageId, entries[messageId].sequenceNumber, Duplicate);
      }
      var nextSeq := counter + 1;
      if nextSeq - counter > maxGap {
        return Decision(messageId, 0, Future);
      }
      AcceptKeepsConsistent(State(), messageId, issued);
      counter := nextSeq;
      entries := entries[messageId := Entry(nextSeq, issued)];
      Persist();
      decision := Decision(messageId, nextSeq, Status.Valid);
    }

    method Persist()
      modifies this`file
      ensures file == Stored(State())
    {
      file := Stored(Image(counter, entries));
    }

    /** Valid are the numbers given out so far and the next `maxGap` ones. */
    method ValidateSequenceOrder(sequenceNumber: int) returns (status: Status)
      requires Valid()
      ensures status.Stale? <==> sequenceNumber <= 0
      ensures maxGap >= 0 ==>
        (status.Valid? <==> HasNumber(State(), sequenceNumber) || counter < sequenceNumber <= counter + maxGap)
      ensures maxGap < 0 ==> (status.Valid? <==> HasNumber(State(), sequenceNumber - maxGap) && sequenceNumber > 0)
      ensures !status.Duplicate?
    {
      if sequenceNumber <= 0 {
        status := Stale;
      } else if sequenceNumber > counter + maxGap {
        status := Future;
      } else {
        status := Status.Valid;
      }
    }

    /** Known are the ids whose next submission in time is a duplicate; a restart knows the same ones. */
    method IsKnown(messageId: string) returns (known: bool)
      requires Valid()
      ensures known <==> Decide(State(), maxGap, messageId).status.Duplicate?
      ensures known <==> messageId in Load(file).entries
    {
      known := messageId in entries;
    }
  }
}
