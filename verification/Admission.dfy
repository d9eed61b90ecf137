/** Queue admission: a shared counter pair that must always agree with the reservations alive. */
module Admission {
  import opened Bytes

  const USIZE_MAX := 0xFFFF_FFFF_FFFF_FFFF

  datatype AdmissionError = NotRunning | QueueFull | ForeignPermit | PermitSpent | ByteLimit

  /** The sum of all charges. */
  ghost function Sum(charges: map<nat, nat>): nat
    decreases |charges|
  {
    if charges == map[] then 0
    else
      var id :| id in charges;
      charges[id] + Sum(charges - {id})
  }

  /** Any charge can be taken out of the sum first. */
  lemma {:induction false} SumWithout(charges: map<nat, nat>, id: nat)
    requires id in charges
    ensures Sum(charges) == charges[id] + Sum(charges - {id})
    decreases |charges|
  {
    var first :| first in charges && Sum(charges) == charges[first] + Sum(charges - {first});
    if first != id {
      SumWithout(charges - {first}, id);
      SumWithout(charges - {id}, first);
      assert charges - {first} - {id} == charges - {id} - {first};
    }
  }

  lemma SumUpdated(charges: map<nat, nat>, id: nat, charge: nat)
    ensures Sum(charges[id := charge]) == charge + Sum(charges - {id})
    ensures id !in charges ==> charges - {id} == charges
  {
    SumWithout(charges[id := charge], id);
    assert charges[id := charge] - {id} == charges - {id};
  }

  /** `AdmissionState`, with `charges` holding `reserved_bytes` of every reservation not yet dropped. */
  class Admission {
    const commandCapacity: nat
    const byteCapacity: nat
    var stopping: bool
    var queuedCommands: nat
    var queuedBytes: nat
    var charges: map<nat, nat>
    var nextReservation: nat

    ghost predicate Valid()
      reads this
    {
      && queuedCommands == |charges| <= commandCapacity
      && queuedBytes == Sum(charges) <= byteCapacity <= USIZE_MAX
      && forall id <- charges :: id < nextReservation
    }

    constructor (commandCapacity: nat, byteCapacity: nat)
      requires byteCapacity <= USIZE_MAX
      ensures this.commandCapacity == commandCapacity && this.byteCapacity == byteCapacity
      ensures Valid() && charges == map[] && nextReservation == 0 && !stopping
    {
      this.commandCapacity, this.byteCapacity := commandCapacity, byteCapacity;
      stopping, queuedCommands, queuedBytes, charges, nextReservation := false, 0, 0, map[], 0;
    }

    /** Reserves a command slot, unless the worker is stopping or the queue is full. */
    method Reserve() returns (r: Result<Permit, AdmissionError>)
      requires Valid()
      modifies this`queuedCommands, this`charges, this`nextReservation
      ensures Valid()
      ensures r.Err? <==> stopping || |old(charges)| >= commandCapacity
      ensures r.Err? ==>
        && charges == old(charges) && nextReservation == old(nextReservation)
        && r.error == if stopping then NotRunning else QueueFull
      ensures r.Ok? ==>
        && fresh(r.value) && r.value.owner == this && r.value.reservation == Some(old(nextReservation))
        && old(nextReservation) !in old(charges) && nextReservation == old(nextReservation) + 1
        && charges == old(charges)[old(nextReservation) := 0]
    {
      if stopping {
        return Err(NotRunning);
      }
      if queuedCommands >= commandCapacity {
        return Err(QueueFull);
      }
      queuedCommands := queuedCommands + 1;
      var id := nextReservation;
      SumUpdated(charges, id, 0);
      charges := charges[id := 0];
      nextReservation := nextReservation + 1;
      var permit := new Permit(this, id);
      r := Ok(permit);
    }

    /** Adds bytes to a live reservation; a refused charge changes nothing. */
    method Charge(id: nat, bytes: nat) returns (r: Result<(), AdmissionError>)
      requires Valid() && id in charges
      modifies this`queuedBytes, this`charges
      ensures Valid()
      ensures r.Ok? <==> Sum(old(charges)) + bytes <= byteCapacity
      ensures charges == if r.Ok? then old(charges)[id := old(charges)[id] + bytes] else old(charges)
      ensures r.Err? ==> r.error == ByteLimit
    {
      SumWithout(charges, id);
      SumUpdated(charges, id, charges[id] + bytes);
      if charges[id] + bytes > USIZE_MAX || queuedBytes + bytes > USIZE_MAX {
        return Err(ByteLimit);
      }
      if queuedBytes + bytes > byteCapacity {
        return Err(ByteLimit);
      }
      queuedBytes := queuedBytes + bytes;
      charges := charges[id := charges[id] + bytes];
      r := Ok(());
    }

    /** Drops a reservation. The subtractions saturate at zero, and never need to. */
    method Drop(id: nat)
      requires Valid() && id in charges
      modifies this`queuedCommands, this`queuedBytes, this`charges
      ensures Valid() && charges == old(charges) - {id}
      ensures queuedCommands + 1 == old(queuedCommands) && queuedBytes + old(charges)[id] == old(queuedBytes)
    {
      SumWithout(charges, id);
      assert |charges - {id}| + 1 == |charges| by { assert charges.Keys == (charges - {id}).Keys + {id}; }
      queuedCommands := SaturatingSub(queuedCommands, 1);
      queuedBytes := SaturatingSub(queuedBytes, charges[id]);
      charges := charges - {id};
    }

    /** Moves the reservation out of a permit of this connector, once. */
    method Take(permit: Permit) returns (r: Result<nat, AdmissionError>)
      modifies permit
      ensures permit.reservation == if permit.owner == this then None else old(permit.reservation)
      ensures r == (if permit.owner != this then Err(ForeignPermit)
        else if old(permit.reservation).None? then Err(PermitSpent) else Ok(old(permit.reservation).value))
    {
      if permit.owner != this {
        return Err(ForeignPermit);
      }
      if permit.reservation.None? {
        return Err(PermitSpent);
      }
      r := Ok(permit.reservation.value);
      permit.reservation := None;
    }

    /** Releases a permit that was not committed, giving its slot back. */
    method Release(permit: Permit) returns (r: Result<(), AdmissionError>)
      requires Valid()
      requires permit.owner == this && permit.reservation.Some? ==> permit.reservation.value in charges
      modifies this`queuedCommands, this`queuedBytes, this`charges, permit
      ensures Valid()
      ensures permit.owner != this ==>
        r == Err(ForeignPermit) && charges == old(charges) && permit.reservation == old(permit.reservation)
      ensures permit.owner == this ==>
        && r.Ok? && permit.reservation == None
        && charges
           == (if old(permit.reservation).Some? then old(charges) - {old(permit.reservation).value} else old(charges))
    {
      if permit.owner != this {
        return Err(ForeignPermit);
      }
      if permit.reservation.Some? {
        Drop(permit.reservation.value);
        permit.reservation := None;
      }
      r := Ok(());
    }
  }

  class Permit {
    const owner: Admission
    var reservation: Option<nat>

    constructor (owner: Admission, id: nat)
      ensures this.owner == owner && reservation == Some(id)
    {
      this.owner, reservation := owner, Some(id);
    }
  }

  function SaturatingSub(a: nat, b: nat): nat {
    if a >= b then a - b else 0
  }

  // ---------- Whole runs ----------

  /** What clients and the worker can do with the permits issued so far, numbered in order of issue. */
  datatype Event =
    | Reserved | Taken(k: nat) | Released(k: nat) | Charged(k: nat, bytes: nat) | Dropped(k: nat) | Stopping

  /** Where a reservation is: still in its permit, with whoever took it, or dropped. */
  datatype Place = InPermit | Out | Gone

  /** The places of all reservations in order of issue, and the permits taken so far. */
  datatype Book = Book(places: seq<Place>, yielded: seq<nat>)

  /** The live reservations are exactly those not dropped, and no permit has yielded one twice. */
  ghost predicate Tally(charges: map<nat, nat>, b: Book) {
    && (forall k: nat :: k in charges <==> k < |b.places| && b.places[k] != Gone)
    && (forall k <- b.yielded :: k < |b.places| && b.places[k] != InPermit)
    && (forall i, j :: 0 <= i < j < |b.yielded| ==> b.yielded[i] != b.yielded[j])
  }

  /** The permit objects are as the book says. */
  ghost predicate Mirrors(state: Admission, permits: seq<Permit>, b: Book)
    reads permits
  {
    && |permits| == |b.places|
    && (forall k :: 0 <= k < |permits| ==>
          && permits[k].owner == state
          && permits[k].reservation == (if b.places[k] == InPermit then Some(k) else None))
    && (forall j, k :: 0 <= j < k < |permits| ==> permits[j] != permits[k])
  }

  /**
   Every run, whatever the order of its events: the counters stay exact and within capacity, every
   live reservation is accounted for, and no permit yields its reservation twice.
   */
  method Run(state: Admission, events: seq<Event>) returns (permits: seq<Permit>, b: Book)
    requires state.Valid() && state.charges == map[] && state.nextReservation == 0
    modifies state
    ensures state.queuedCommands == |state.charges| <= state.commandCapacity
    ensures state.queuedBytes == Sum(state.charges) <= state.byteCapacity
    ensures Tally(state.charges, b) && Mirrors(state, permits, b)
  {
    hide Sum;
    permits, b := [], Book([], []);
    for i := 0 to |events|
      invariant Consistent(state, permits, b)
      invariant forall k :: 0 <= k < |permits| ==> fresh(permits[k])
    {
      permits, b := Handle(state, events[i], permits, b);
    }
  }

  ghost predicate Consistent(state: Admission, permits: seq<Permit>, b: Book)
    reads state, permits
  {
    state.Valid() && state.nextReservation == |b.places| && Tally(state.charges, b) && Mirrors(state, permits, b)
  }

  /** One event; an event that names no such permit or reservation cannot happen and is skipped. */
  method Handle(state: Admission, event: Event, permits: seq<Permit>, b: Book) returns (permits': seq<Permit>, b': Book)
    requires Consistent(state, permits, b)
    modifies state, permits
    ensures Consistent(state, permits', b')
    ensures forall k :: 0 <= k < |permits'| ==> permits'[k] in permits || fresh(permits'[k])
  {
    hide Consistent;
    permits', b' := permits, b;
    match event
    case Reserved => permits', b' := HandleReserve(state, permits, b);
    case Taken(k) => b' := HandleTake(state, k, permits, b);
    case Released(k) => b' := HandleRelease(state, k, permits, b);
    case Charged(k, bytes) => HandleCharge(state, k, bytes, permits, b);
    case Dropped(k) => b' := HandleDrop(state, k, permits, b);
    case Stopping => HandleStop(state, permits, b);
  }

  lemma TallyIssued(charges: map<nat, nat>, b: Book, id: nat)
    requires Tally(charges, b) && id == |b.places|
    ensures Tally(charges[id := 0], b.(places := b.places + [InPermit]))
  {
  }

  lemma TallyGone(charges: map<nat, nat>, b: Book, k: nat)
    requires Tally(charges, b) && k < |b.places| && b.places[k] != Gone
    ensures k in charges && Tally(charges - {k}, b.(places := b.places[k := Gone]))
  {
  }

  method HandleCharge(state: Admission, k: nat, bytes: nat, permits: seq<Permit>, b: Book)
    requires Consistent(state, permits, b)
    modifies state
    ensures Consistent(state, permits, b)
  {
    hide Sum;
    if k < |permits| && b.places[k] == Out {
      var _ := state.Charge(k, bytes);
    }
  }

  method HandleDrop(state: Admission, k: nat, permits: seq<Permit>, b: Book) returns (b': Book)
    requires Consistent(state, permits, b)
    modifies state
    ensures Consistent(state, permits, b')
  {
    hide Sum;
    if k < |permits| && b.places[k] == Out {
      TallyGone(state.charges, b, k);
      hide Tally;
      state.Drop(k);
      return b.(places := b.places[k := Gone]);
    }
    return b;
  }

  method HandleStop(state: Admission, permits: seq<Permit>, b: Book)
    requires Consistent(state, permits, b)
    modifies state
    ensures Consistent(state, permits, b) && state.stopping
  {
    state.stopping := true;
  }

  method HandleReserve(state: Admission, permits: seq<Permit>, b: Book) returns (permits': seq<Permit>, b': Book)
    requires Consistent(state, permits, b)
    modifies state
    ensures Consistent(state, permits', b')
    ensures permits <= permits' && forall k :: |permits| <= k < |permits'| ==> fresh(permits'[k])
  {
    hide Sum;
    TallyIssued(state.charges, b, state.nextReservation);
    hide Tally;
    var r := state.Reserve();
    if r.Ok? {
      return permits + [r.value], b.(places := b.places + [InPermit]);
    }
    return permits, b;
  }

  method HandleTake(state: Admission, k: nat, permits: seq<Permit>, b: Book) returns (b': Book)
    requires Consistent(state, permits, b)
    modifies permits
    ensures Consistent(state, permits, b')
    ensures if k < |b.places| && b.places[k] == InPermit
      then k !in b.yielded && b' == Book(b.places[k := Out], b.yielded + [k])
      else b' == b
  {
    hide Sum;
    if k >= |permits| {
      return b;
    }
    var r := state.Take(permits[k]);
    if r.Ok? {
      return Book(b.places[k := Out], b.yielded + [k]);
    }
    return b;
  }

  method HandleRelease(state: Admission, k: nat, permits: seq<Permit>, b: Book) returns (b': Book)
    requires Consistent(state, permits, b)
    modifies state, permits
    ensures Consistent(state, permits, b')
  {
    hide Sum;
    if k >= |permits| {
      return b;
    }
    if b.places[k] == InPermit {
      TallyGone(state.charges, b, k);
    }
    hide Tally;
    var _ := state.Release(permits[k]);
    return b.(places := if b.places[k] == InPermit then b.places[k := Gone] else b.places);
  }
}
