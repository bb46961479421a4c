// Who owns the transfer descriptors of a pool: shared by the UHCI and OHCI drivers.

module PoolOwners {
  /** Owner of a transfer descriptor: nobody, the transfer under construction, a transfer in
      flight on some queue head or endpoint, or nobody who would ever free it. */
  datatype Place = Free | Open(i: nat) | Of(owner: nat, i: nat) | Lost

  /** A chain in flight: each descriptor knows its owner and its position. */
  ghost predicate OwnsAll(place: seq<Place>, chain: seq<nat>, owner: nat) {
    forall i :: 0 <= i < |chain| ==> chain[i] < |place| && place[chain[i]] == Of(owner, i)
  }

  /** The chain under construction. */
  ghost predicate OpenAll(place: seq<Place>, open: seq<nat>) {
    forall i :: 0 <= i < |open| ==> open[i] < |place| && place[open[i]] == Open(i)
  }

  /** A chain handed to an owner. */
  function Handed(p: Place, owner: nat): Place {
    if p.Open? then Of(owner, p.i) else p
  }

  /** A construction given up. */
  function Forgotten(p: Place): Place {
    if p.Open? then Lost else p
  }

  /** A chain given back by its owner. */
  function Freed(p: Place, owner: nat): Place {
    if p.Of? && p.owner == owner then Free else p
  }
}
